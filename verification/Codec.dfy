/** Little-endian fields, sequences of fields, and grammars in which the fields read
    so far determine the kind of the next one. */
module Codec {
  import opened Machine

  datatype WireStatus = Ok | BufferTooSmall | Malformed | TooLarge | VersionUnsupported

  datatype Field = U8(b: byte) | U16(h: u16) | U32(w: u32) | U64(d: u64) | Raw(bytes: Bytes)

  datatype Kind = K8 | K16 | K32 | K64 | KRaw(n: nat) {
    function Width(): nat {
      match this
      case K8 => 1
      case K16 => 2
      case K32 => 4
      case K64 => 8
      case KRaw(n) => n
    }
  }

  function KindOf(f: Field): Kind {
    match f
    case U8(_) => K8
    case U16(_) => K16
    case U32(_) => K32
    case U64(_) => K64
    case Raw(bs) => KRaw(|bs|)
  }

  // ------------------------------------------------------------------ byte order

  function LittleEndian(n: nat, width: nat): (b: Bytes)
    ensures |b| == width
  {
    if width == 0 then [] else [n % 256] + LittleEndian(n / 256, width - 1)
  }

  function Value(b: Bytes): nat {
    if b == [] then 0 else b[0] + 256 * Value(b[1..])
  }

  lemma {:induction false} ValueOfLittleEndian(n: nat, width: nat)
    requires n < Power256(width)
    ensures Value(LittleEndian(n, width)) == n
  {
    if width > 0 {
      ValueOfLittleEndian(n / 256, width - 1);
      assert LittleEndian(n, width)[1..] == LittleEndian(n / 256, width - 1);
    }
  }

  lemma {:induction false} LittleEndianOfValue(b: Bytes)
    ensures Value(b) < Power256(|b|) && LittleEndian(Value(b), |b|) == b
  {
    if b != [] {
      LittleEndianOfValue(b[1..]);
      assert Value(b) / 256 == Value(b[1..]) && Value(b) % 256 == b[0];
    }
  }

  /** Byte `k` is the number's digit of that weight, the lowest first. */
  lemma {:induction false} LittleEndianDigit(n: nat, width: nat, k: nat)
    requires k < width
    ensures Power256(k) > 0 && LittleEndian(n, width)[k] == n / Power256(k) % 256
  {
    Power256Positive(k);
    if k > 0 {
      Power256Positive(k - 1);
      LittleEndianDigit(n / 256, width - 1, k - 1);
      DivideTwice(n, 256, Power256(k - 1));
    }
  }

  /** A signed number and its unsigned image differ by a multiple of 2^64, and the casts undo each other. */
  lemma TwosComplement(i: i64, u: u64)
    ensures (ToUnsigned(i) - i) % TWO_64 == 0 && (u - ToSigned(u)) % TWO_64 == 0
    ensures ToSigned(ToUnsigned(i)) == i && ToUnsigned(ToSigned(u)) == u
  {
  }

  /** Two's complement, as the cast between signed and unsigned 64-bit integers. */
  function ToUnsigned(i: i64): u64 {
    if i < 0 then i + TWO_64 else i
  }

  function ToSigned(u: u64): i64 {
    if u >= 0x8000_0000_0000_0000 then u - TWO_64 else u
  }

  // ---------------------------------------------------------------------- fields

  function Encode(f: Field): (b: Bytes)
    ensures |b| == KindOf(f).Width()
  {
    match f
    case U8(v) => LittleEndian(v, 1)
    case U16(v) => LittleEndian(v, 2)
    case U32(v) => LittleEndian(v, 4)
    case U64(v) => LittleEndian(v, 8)
    case Raw(bs) => bs
  }

  lemma EncodeInjective(f: Field, g: Field)
    requires KindOf(f) == KindOf(g) && Encode(f) == Encode(g)
    ensures f == g
  {
    Powers();
    match f
    case U8(v) =>
      ValueOfLittleEndian(v, 1);
      ValueOfLittleEndian(g.b, 1);
    case U16(v) =>
      ValueOfLittleEndian(v, 2);
      ValueOfLittleEndian(g.h, 2);
    case U32(v) =>
      ValueOfLittleEndian(v, 4);
      ValueOfLittleEndian(g.w, 4);
    case U64(v) =>
      ValueOfLittleEndian(v, 8);
      ValueOfLittleEndian(g.d, 8);
    case Raw(_) =>
  }

  /** The wire image of a sequence of fields. */
  function Enc(fs: seq<Field>): Bytes {
    if fs == [] then [] else Enc(fs[..|fs| - 1]) + Encode(fs[|fs| - 1])
  }

  lemma EncSnoc(fs: seq<Field>, f: Field)
    ensures Enc(fs + [f]) == Enc(fs) + Encode(f)
  {
    assert (fs + [f])[..|fs|] == fs;
  }

  lemma {:induction false} EncPrefix(fs: seq<Field>, n: nat)
    requires n <= |fs|
    ensures Enc(fs[..n]) <= Enc(fs)
  {
    if n < |fs| {
      EncPrefix(fs[..|fs| - 1], n);
      assert fs[..|fs| - 1][..n] == fs[..n];
    } else {
      assert fs[..n] == fs;
    }
  }

  lemma {:induction false} EncConcat(fs: seq<Field>, gs: seq<Field>)
    ensures Enc(fs + gs) == Enc(fs) + Enc(gs)
  {
    hide Encode, Enc;
    if gs == [] {
      EncEmpty();
      assert fs + gs == fs && Enc(fs) + [] == Enc(fs);
    } else {
      var n := |gs| - 1;
      EncConcat(fs, gs[..n]);
      EncConcatStep(fs, gs[..n], gs[n]);
      assert gs == gs[..n] + [gs[n]];
    }
  }

  lemma EncEmpty()
    ensures Enc([]) == []
  {
  }

  lemma EncConcatStep(fs: seq<Field>, gs: seq<Field>, f: Field)
    requires Enc(fs + gs) == Enc(fs) + Enc(gs)
    ensures Enc(fs + (gs + [f])) == Enc(fs) + Enc(gs + [f])
  {
    hide Enc, Encode;
    EncSnoc(gs, f);
    EncSnoc(fs + gs, f);
    assert fs + (gs + [f]) == fs + gs + [f];
  }

  /** The length of the first `n` fields, by their kinds. */
  ghost function Widths(ks: seq<Kind>, n: nat): nat
    requires n <= |ks|
  {
    if n == 0 then 0 else Widths(ks, n - 1) + ks[n - 1].Width()
  }

  lemma {:induction false} EncLength(fs: seq<Field>, ks: seq<Kind>, n: nat)
    requires n <= |fs| == |ks| && forall i :: 0 <= i < |fs| ==> KindOf(fs[i]) == ks[i]
    ensures |Enc(fs[..n])| == Widths(ks, n)
  {
    hide Enc, Encode, KindOf;
    if n > 0 {
      var (front, f) := (fs[..n - 1], fs[n - 1]);
      EncLength(fs, ks, n - 1);
      EncSnoc(front, f);
      assert fs[..n] == front + [f];
    } else {
      EncEmpty();
      assert fs[..0] == [];
    }
  }

  function U64s(xs: seq<u64>): (fs: seq<Field>)
    ensures |fs| == |xs| && forall i :: 0 <= i < |xs| ==> fs[i] == U64(xs[i])
  {
    seq(|xs|, i requires 0 <= i < |xs| => U64(xs[i]))
  }

  lemma {:induction false} EncU64s(fs: seq<Field>, xs: seq<u64>)
    ensures |Enc(fs + U64s(xs))| == |Enc(fs)| + 8 * |xs|
  {
    hide Enc, Encode;
    if xs == [] {
      assert fs + U64s(xs) == fs;
    } else {
      var n := |xs| - 1;
      EncU64s(fs, xs[..n]);
      assert fs + U64s(xs) == fs + U64s(xs[..n]) + [U64(xs[n])];
      EncSnoc(fs + U64s(xs[..n]), U64(xs[n]));
    }
  }

  // -------------------------------------------------------------------- grammars

  /** What a grammar says after some fields: read on, stop, or reject a count. */
  datatype Next = Read(kind: Kind) | Done | Bad

  type Grammar = seq<Field> -> Next

  ghost predicate Parses(g: Grammar, fs: seq<Field>) {
    g(fs) == Done && forall i :: 0 <= i < |fs| ==> g(fs[..i]) == Read(KindOf(fs[i]))
  }

  /** `fs` is a partial parse: every field was the one the grammar asked for. */
  ghost predicate Follows(g: Grammar, fs: seq<Field>) {
    forall i :: 0 <= i < |fs| ==> g(fs[..i]) == Read(KindOf(fs[i]))
  }

  /** No message of the grammar starts this data. */
  ghost predicate NoParse(g: Grammar, data: Bytes) {
    forall fs: seq<Field> :: Parses(g, fs) ==> !(Enc(fs) <= data)
  }

  /** Two field sequences that follow one grammar and start the same data agree as far as both go. */
  lemma {:induction false} Agree(g: Grammar, fs: seq<Field>, gs: seq<Field>, data: Bytes, n: nat)
    requires Follows(g, fs) && Follows(g, gs) && Enc(fs) <= data && Enc(gs) <= data
    requires n <= |fs| && n <= |gs|
    ensures fs[..n] == gs[..n]
  {
    if n > 0 {
      var m := n - 1;
      Agree(g, fs, gs, data, m);
      assert KindOf(fs[m]) == KindOf(gs[m]) by { assert g(fs[..m]) == g(gs[..m]); }
      AgreeAt(fs, gs, data, m);
      assert fs[..n] == fs[..m] + [fs[m]] && gs[..n] == gs[..m] + [gs[m]];
    }
  }

  lemma AgreeAt(fs: seq<Field>, gs: seq<Field>, data: Bytes, m: nat)
    requires Enc(fs) <= data && Enc(gs) <= data && m < |fs| && m < |gs|
    requires fs[..m] == gs[..m] && KindOf(fs[m]) == KindOf(gs[m])
    ensures fs[m] == gs[m]
  {
    hide Enc, Encode, KindOf;
    FieldSlice(fs, data, m);
    FieldSlice(gs, data, m);
    EncodeInjective(fs[m], gs[m]);
  }

  /** Where in the data a field's bytes stand. */
  lemma FieldSlice(fs: seq<Field>, data: Bytes, m: nat)
    requires Enc(fs) <= data && m < |fs|
    ensures var x := |Enc(fs[..m])|;
            x + KindOf(fs[m]).Width() <= |data| && data[x..x + KindOf(fs[m]).Width()] == Encode(fs[m])
  {
    hide Enc, Encode;
    EncPrefix(fs, m + 1);
    assert fs[..m + 1] == fs[..m] + [fs[m]];
    EncSnoc(fs[..m], fs[m]);
    SliceOf(Enc(fs[..m]), Encode(fs[m]), Enc(fs), data);
  }

  lemma SliceOf(x: Bytes, y: Bytes, whole: Bytes, data: Bytes)
    requires x + y <= whole && whole <= data
    ensures |x| + |y| <= |data| && data[|x|..|x| + |y|] == y
  {
    assert (x + y)[|x|..] == y;
  }

  /** A partial parse of data that a message starts is a prefix of the message, and
      the grammar asks for the message's next field, which fits into the data. */
  lemma PartialExtends(g: Grammar, log: seq<Field>, fs: seq<Field>, data: Bytes)
    requires Follows(g, log) && Parses(g, fs) && Enc(log) <= data && Enc(fs) <= data
    ensures log <= fs
    ensures |log| == |fs| ==> g(log) == Done
    ensures |log| < |fs| ==>
              g(log) == Read(KindOf(fs[|log|])) && |Enc(log)| + KindOf(fs[|log|]).Width() <= |data|
  {
    hide Enc, Encode;
    var n := if |fs| < |log| then |fs| else |log|;
    Agree(g, log, fs, data, n);
    assert fs[..|fs|] == fs && log[..|log|] == log;
    if |log| < |fs| {
      assert fs[..n] == log;
      assert fs[..n + 1] == log + [fs[n]];
      EncSnoc(log, fs[n]);
      EncPrefix(fs, n + 1);
    }
  }

  /** A grammar's messages form a prefix code. */
  lemma ParseUnique(g: Grammar, fs: seq<Field>, gs: seq<Field>, data: Bytes)
    requires Parses(g, fs) && Parses(g, gs) && Enc(fs) <= data && Enc(gs) <= data
    ensures fs == gs
  {
    PartialExtends(g, fs, gs, data);
  }

  /** Running out of bytes at the next field, or meeting a rejected count, excludes every message. */
  lemma StuckExcludes(g: Grammar, log: seq<Field>, data: Bytes)
    requires Follows(g, log) && Enc(log) <= data
    requires g(log) == Bad || (g(log).Read? && |Enc(log)| + g(log).kind.Width() > |data|)
    ensures NoParse(g, data)
  {
    hide Enc;
    forall fs: seq<Field> | Parses(g, fs)
      ensures !(Enc(fs) <= data)
    {
      if Enc(fs) <= data {
        PartialExtends(g, log, fs, data);
        assert false;
      }
    }
  }

  /** The one message that starts the data, if there is one. */
  ghost function Parse(g: Grammar, data: Bytes): (r: Option<seq<Field>>)
    ensures r.Some? ==> Parses(g, r.value) && Enc(r.value) <= data
    ensures r.None? ==> NoParse(g, data)
  {
    if fs: seq<Field> :| Parses(g, fs) && Enc(fs) <= data then Some(fs) else None
  }

  /** Every strict prefix of a message is rejected. */
  lemma PrefixRejected(g: Grammar, fs: seq<Field>, k: nat)
    requires Parses(g, fs) && k < |Enc(fs)|
    ensures Parse(g, Enc(fs)[..k]) == None
  {
    var cut := Enc(fs)[..k];
    if gs :| Parses(g, gs) && Enc(gs) <= cut {
      ParseUnique(g, fs, gs, Enc(fs));
      assert false;
    }
  }
}
