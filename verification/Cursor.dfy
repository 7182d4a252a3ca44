/** Bounded cursors with a sticky success flag, and little-endian integer packing. */
module Cursor {
  import opened Machine
  import opened Codec

  /** Writes fields into the first `cap` bytes of a buffer. */
  class Writer {
    const buf: array<byte>
    const cap: nat
    var off: nat
    var ok: bool

    /** Every field asked for so far, written or not. */
    ghost var log: seq<Field>

    /** The flag is down exactly when what was asked for does not fit. */
    ghost predicate Valid()
      reads this, buf
    {
      && cap <= buf.Length && off <= cap
      && (ok <==> |Enc(log)| <= cap)
      && (ok ==> off == |Enc(log)| && buf[..off] == Enc(log))
    }

    constructor (buf: array<byte>, cap: nat)
      requires cap <= buf.Length
      ensures Valid() && this.buf == buf && this.cap == cap && log == []
    {
      this.buf := buf;
      this.cap := cap;
      off := 0;
      ok := true;
      log := [];
    }

    /** What validity says about the buffer, for callers that hide it. */
    lemma Written()
      requires Valid()
      ensures ok <==> |Enc(log)| <= cap
      ensures ok ==> off == |Enc(log)| <= buf.Length && buf[..off] == Enc(log)
    {
    }

    method Write(src: Bytes, ghost f: Field)
      requires Valid() && src == Encode(f)
      modifies this, buf
      ensures Valid() && log == old(log) + [f]
    {
      hide Enc, Encode;
      EncSnoc(log, f);
      log := log + [f];
      if !ok { return; }
      if |src| > cap - off {
        ok := false;
        return;
      }
      forall i | 0 <= i < |src| { buf[off + i] := src[i]; }
      assert buf[..off + |src|] == old(buf[..off]) + src;
      off := off + |src|;
    }

    method U8(v: byte)
      requires Valid()
      modifies this, buf
      ensures Valid() && log == old(log) + [Field.U8(v)]
    {
      assert LittleEndian(v, 1) == [v];
      Write([v], Field.U8(v));
    }

    method U16(v: u16)
      requires Valid()
      modifies this, buf
      ensures Valid() && log == old(log) + [Field.U16(v)]
    {
      assert LittleEndian(v / 256, 1) == [v / 256];
      Write([v % 256, v / 256], Field.U16(v));
    }

    method U32(v: u32)
      requires Valid()
      modifies this, buf
      ensures Valid() && log == old(log) + [Field.U32(v)]
    {
      Bytes4(v);
      Write([v % 256, v / 0x100 % 256, v / 0x1_0000 % 256, v / 0x100_0000 % 256], Field.U32(v));
    }

    static lemma Bytes4(v: u32)
      ensures LittleEndian(v, 4) == [v % 256, v / 0x100 % 256, v / 0x1_0000 % 256, v / 0x100_0000 % 256]
    {
      assert LittleEndian(v / 0x100_0000, 1) == [v / 0x100_0000 % 256];
      assert v / 0x1_0000 / 256 == v / 0x100_0000 && v / 0x100 / 256 == v / 0x1_0000;
      assert LittleEndian(v / 0x1_0000, 2) == [v / 0x1_0000 % 256, v / 0x100_0000 % 256];
      assert LittleEndian(v / 0x100, 3) == [v / 0x100 % 256, v / 0x1_0000 % 256, v / 0x100_0000 % 256];
    }

    method U64(v: u64)
      requires Valid()
      modifies this, buf
      ensures Valid() && log == old(log) + [Field.U64(v)]
    {
      var b: Bytes := [];
      var rest: nat := v;
      for i := 0 to 8
        invariant LittleEndian(v, 8) == b + LittleEndian(rest, 8 - i)
      {
        assert LittleEndian(rest, 8 - i) == [rest % 256] + LittleEndian(rest / 256, 7 - i);
        b := b + [rest % 256];
        rest := rest / 256;
      }
      assert LittleEndian(v, 8) == b;
      Write(b, Field.U64(v));
    }

    method I64(v: i64)
      requires Valid()
      modifies this, buf
      ensures Valid() && log == old(log) + [Field.U64(ToUnsigned(v))]
    {
      U64(ToUnsigned(v));
    }

    method Fixed(bytes: Bytes)
      requires Valid()
      modifies this, buf
      ensures Valid() && log == old(log) + [Raw(bytes)]
    {
      Write(bytes, Raw(bytes));
    }

    /** The counted loops over 64-bit elements. */
    method U64Array(xs: seq<u64>, count: nat)
      requires Valid() && count <= |xs|
      modifies this, buf
      ensures Valid() && log == old(log) + U64s(xs[..count])
    {
      hide Enc;
      for i := 0 to count
        invariant Valid() && log == old(log) + U64s(xs[..i])
      {
        U64(xs[i]);
        assert U64s(xs[..i + 1]) == U64s(xs[..i]) + [Field.U64(xs[i])];
      }
    }
  }

  /** Reads the fields of one message of a grammar. */
  class Reader {
    const data: Bytes
    var off: nat
    var ok: bool

    ghost const grammar: Grammar
    /** The fields read successfully. */
    ghost var log: seq<Field>
    /** Kinds the grammar is known to ask for next, whatever their values. */
    ghost var todo: seq<Kind>
    /** How many of those have been read. */
    ghost var at: nat

    /** While the flag is up the bytes passed are exactly the fields read; once it
        is down no message of the grammar starts this data. */
    ghost predicate Valid()
      reads this
    {
      && off <= |data|
      && (ok ==> off == |Enc(log)| && Enc(log) <= data && Follows(grammar, log))
      && (!ok ==> NoParse(grammar, data))
      && at <= |todo| && (ok ==> AsksFor(grammar, log, todo[at..]))
    }

    /** This kind comes next. */
    ghost predicate Wants(k: Kind)
      reads this
    {
      at < |todo| && todo[at] == k
    }

    /** What validity says about the data, for callers that hide it. */
    lemma SoFar()
      requires Valid()
      ensures ok ==> Enc(log) <= data && Follows(grammar, log)
      ensures !ok ==> NoParse(grammar, data)
    {
    }

    /** Announces the kinds to be read next. */
    ghost method Expect(ks: seq<Kind>)
      requires Valid() && (ok ==> AsksFor(grammar, log, ks))
      modifies this`todo, this`at
      ensures Valid() && todo == ks && at == 0
    {
      todo, at := ks, 0;
      assert ks[0..] == ks;
    }

    constructor (data: Bytes, ghost grammar: Grammar)
      ensures Valid() && ok && this.data == data && this.grammar == grammar && log == []
    {
      this.data := data;
      this.grammar := grammar;
      off := 0;
      ok := true;
      log := [];
      todo, at := [], 0;
    }

    /** Copies `n` bytes out, or leaves the zero-initialised destination alone and
        lowers the flag. */
    method ReadBytes(n: nat, ghost f: Field) returns (dst: Bytes)
      requires Valid() && KindOf(f).Width() == n && Wants(KindOf(f))
      requires ok && n <= |data| - off ==> Encode(f) == data[off..off + n]
      modifies this
      ensures Valid() && |dst| == n && todo == old(todo) && at == old(at) + 1
      ensures ok == (old(ok) && n <= |data| - old(off))
      ensures ok ==> log == old(log) + [f] && dst == Encode(f)
      ensures !ok ==> dst == Zeros(n) && log == old(log)
    {
      hide Enc, Encode;
      dst := Zeros(n);
      if ok {
        AsksNext(grammar, log, todo[at..], f);
        assert todo[at..][1..] == todo[at + 1..];
      }
      at := at + 1;
      if !ok { return; }
      if n > |data| - off {
        ok := false;
        StuckExcludes(grammar, log, data);
        return;
      }
      dst := data[off..off + n];
      EncSnoc(log, f);
      FollowsSnoc(grammar, log, f);
      assert data[..off + n] == data[..off] + dst;
      log := log + [f];
      off := off + n;
    }

    /** After any fields of these kinds the grammar asks for the next kind. */
    static ghost predicate AsksFor(g: Grammar, fs: seq<Field>, ks: seq<Kind>) {
      forall gs: seq<Field> :: |gs| < |ks| ==> g(fs + gs) == Read(ks[|gs|])
    }

    static lemma AsksNext(g: Grammar, fs: seq<Field>, ks: seq<Kind>, f: Field)
      requires AsksFor(g, fs, ks) && |ks| > 0
      ensures g(fs) == Read(ks[0]) && AsksFor(g, fs + [f], ks[1..])
    {
      assert fs + [] == fs;
      forall gs: seq<Field> | |gs| < |ks| - 1
        ensures g(fs + [f] + gs) == Read(ks[1..][|gs|])
      {
        assert fs + [f] + gs == fs + ([f] + gs);
      }
    }

    static lemma FollowsSnoc(g: Grammar, fs: seq<Field>, f: Field)
      requires Follows(g, fs) && g(fs) == Read(KindOf(f))
      ensures Follows(g, fs + [f])
    {
      var gs := fs + [f];
      forall i | 0 <= i < |gs|
        ensures g(gs[..i]) == Read(KindOf(gs[i]))
      {
        if i < |fs| {
          assert gs[..i] == fs[..i];
        } else {
          assert gs[..i] == fs;
        }
      }
    }

    /** The next `n` bytes, as the ghost argument of the readers below. */
    ghost function Ahead(n: nat): (b: Bytes)
      reads this
      ensures |b| == n
    {
      if off + n <= |data| then data[off..off + n] else Zeros(n)
    }

    method U8() returns (v: byte)
      requires Valid() && Wants(K8)
      modifies this
      ensures Valid() && todo == old(todo) && at == old(at) + 1 && (ok ==> old(ok) && log == old(log) + [Field.U8(v)])
    {
      hide Valid;
      ghost var a := Ahead(1);
      assert LittleEndian(a[0], 1) == a;
      var b := ReadBytes(1, Field.U8(a[0]));
      v := b[0];
    }

    method U16() returns (v: u16)
      requires Valid() && Wants(K16)
      modifies this
      ensures Valid() && todo == old(todo) && at == old(at) + 1 && (ok ==> old(ok) && log == old(log) + [Field.U16(v)])
    {
      hide Valid;
      ghost var a := Ahead(2);
      ValueBytes(a, 2);
      var b := ReadBytes(2, Field.U16(Codec.Value(a)));
      Value2(b);
      ValueBytes(b, 2);
      v := b[0] as int + 0x100 * b[1] as int;
    }

    method U32() returns (v: u32)
      requires Valid() && Wants(K32)
      modifies this
      ensures Valid() && todo == old(todo) && at == old(at) + 1 && (ok ==> old(ok) && log == old(log) + [Field.U32(v)])
    {
      hide Valid;
      ghost var a := Ahead(4);
      ValueBytes(a, 4);
      var b := ReadBytes(4, Field.U32(Codec.Value(a)));
      Value4(b);
      ValueBytes(b, 4);
      hide Codec.Value, Joined4, Enc, LittleEndian;
      v := Joined4(b[0], b[1], b[2], b[3]);
    }

    static lemma Value2(b: Bytes)
      requires |b| == 2
      ensures Codec.Value(b) == b[0] as int + 0x100 * b[1] as int
    {
      assert Codec.Value(b[1..]) == b[1] + 256 * Codec.Value(b[1..][1..]);
    }

    static function Joined4(b0: int, b1: int, b2: int, b3: int): int {
      b0 + 0x100 * b1 + 0x1_0000 * b2 + 0x100_0000 * b3
    }

    static lemma Value4(b: Bytes)
      requires |b| == 4
      ensures Codec.Value(b) == Joined4(b[0], b[1], b[2], b[3])
    {
      assert Codec.Value(b[1..][1..][1..]) == b[3] + 256 * Codec.Value(b[1..][1..][1..][1..]);
      assert Codec.Value(b[1..][1..]) == b[2] + 256 * Codec.Value(b[1..][1..][1..]);
      assert Codec.Value(b[1..]) == b[1] + 256 * Codec.Value(b[1..][1..]);
    }

    static lemma ValueBytes(b: Bytes, n: nat)
      requires |b| == n
      ensures Codec.Value(b) < Power256(n) && LittleEndian(Codec.Value(b), n) == b
      ensures Power256(1) == 256 && Power256(2) == 0x1_0000 && Power256(4) == TWO_32 && Power256(8) == TWO_64
    {
      LittleEndianOfValue(b);
      Powers();
    }

    method U64() returns (v: u64)
      requires Valid() && Wants(K64)
      modifies this
      ensures Valid() && todo == old(todo) && at == old(at) + 1 && (ok ==> old(ok) && log == old(log) + [Field.U64(v)])
    {
      hide Valid;
      ghost var a := Ahead(8);
      ValueBytes(a, 8);
      var b := ReadBytes(8, Field.U64(Codec.Value(a)));
      v := Combine(b);
    }

    /** Shifts bytes into place, the last one highest. */
    static method Combine(b: Bytes) returns (v: u64)
      requires |b| == 8
      ensures v == Codec.Value(b)
    {
      hide Codec.Value;
      ValueBytes(b, 8);
      var w: nat := 0;
      assert b[8..] == [];
      ValueOfNone();
      for i := 0 to 8
        invariant w == Codec.Value(b[8 - i..])
      {
        ValueFrom(b, 7 - i);
        w := b[7 - i] as int + 256 * w;
      }
      assert b[0..] == b;
      v := w;
    }

    static lemma ValueOfNone()
      ensures Codec.Value([]) == 0
    {
    }

    static lemma ValueFrom(b: Bytes, i: nat)
      requires i < |b|
      ensures Codec.Value(b[i..]) == b[i] as int + 256 * Codec.Value(b[i + 1..])
    {
      assert b[i..][1..] == b[i + 1..];
    }

    method I64() returns (v: i64)
      requires Valid() && Wants(K64)
      modifies this
      ensures Valid() && todo == old(todo) && at == old(at) + 1 && (ok ==> old(ok) && log == old(log) + [Field.U64(ToUnsigned(v))])
    {
      var u := U64();
      v := ToSigned(u);
    }

    method Fixed(n: nat) returns (b: Bytes)
      requires Valid() && Wants(KRaw(n))
      modifies this
      ensures Valid() && |b| == n && todo == old(todo) && at == old(at) + 1 && (ok ==> old(ok) && log == old(log) + [Raw(b)])
    {
      hide Valid;
      b := ReadBytes(n, Raw(Ahead(n)));
    }

    /** The counted loops over 64-bit elements; what is not read stays zero. */
    method U64Array(count: nat, size: nat) returns (xs: seq<u64>)
      requires Valid() && count <= size
      requires at + count <= |todo| && forall i :: at <= i < at + count ==> todo[i] == K64
      modifies this
      ensures Valid() && |xs| == size && (forall i :: count <= i < size ==> xs[i] == 0)
      ensures todo == old(todo) && at == old(at) + count
      ensures ok ==> old(ok) && log == old(log) + U64s(xs[..count])
    {
      hide Valid;
      xs := seq(size, _ => 0);
      for i := 0 to count
        invariant Valid() && |xs| == size && (forall k :: i <= k < size ==> xs[k] == 0)
        invariant todo == old(todo) && at == old(at) + i
        invariant ok ==> old(ok) && log == old(log) + U64s(xs[..i])
      {
        ghost var before := xs[..i];
        var x := U64();
        xs := xs[i := x];
        assert xs[..i] == before;
        assert U64s(xs[..i + 1]) == U64s(before) + [Field.U64(x)];
      }
    }
  }
}
