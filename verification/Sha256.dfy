/** Streaming SHA-256: whatever way a message is split into update calls, the digest
    is the compression function folded over the message padded as in section 5.1.1
    of FIPS 180-4. The compression function itself is a parameter. */
module Sha256 {
  import opened Machine

  const BLOCK := 64
  const LENGTH_AT := 56

  /** The eight working words. */
  type Words = w: seq<u32> | |w| == 8 witness [0, 0, 0, 0, 0, 0, 0, 0]

  type Compression = (Words, Bytes) -> Words

  const INITIAL: Words :=
    [0x6a09e667, 0xbb67ae85, 0x3c6ef372, 0xa54ff53a, 0x510e527f, 0x9b05688c, 0x1f83d9ab, 0x5be0cd19]

  // ------------------------------------------------------------------ specification

  /** The compression function folded over the whole blocks of `m`. */
  function Absorb(compress: Compression, h: Words, m: Bytes): Words
    decreases |m|
  {
    if |m| < BLOCK then h else Absorb(compress, compress(h, m[..BLOCK]), m[BLOCK..])
  }

  function BigEndian(n: nat, width: nat): (b: Bytes)
    ensures |b| == width
  {
    if width == 0 then [] else BigEndian(n / 256, width - 1) + [n % 256]
  }

  /** The least number of zero bytes that brings the length field to a block's end. */
  function ZeroCount(length: nat): nat {
    (2 * BLOCK - 1 - length % BLOCK - (BLOCK - LENGTH_AT)) % BLOCK
  }

  /** A one bit, zeros, and the bit length in 64 bits. */
  function Padded(m: Bytes): Bytes {
    m + [0x80] + Zeros(ZeroCount(|m|)) + BigEndian(|m| * 8 % TWO_64, 8)
  }

  function Serialize(h: Words, n: nat): Bytes
    requires n <= 8
  {
    if n == 0 then [] else Serialize(h, n - 1) + BigEndian(h[n - 1], 4)
  }

  function Digest(compress: Compression, m: Bytes): Bytes {
    Serialize(Absorb(compress, INITIAL, Padded(m)), 8)
  }

  // ----------------------------------------------------------------------- lemmas

  lemma {:induction false} AbsorbConcat(compress: Compression, h: Words, m: Bytes, n: Bytes)
    requires |m| % BLOCK == 0
    ensures Absorb(compress, h, m + n) == Absorb(compress, Absorb(compress, h, m), n)
    decreases |m|
  {
    if |m| < BLOCK {
      assert m + n == n;
    } else {
      assert (m + n)[..BLOCK] == m[..BLOCK] && (m + n)[BLOCK..] == m[BLOCK..] + n;
      AbsorbConcat(compress, compress(h, m[..BLOCK]), m[BLOCK..], n);
    }
  }

  /** Only whole blocks count. */
  lemma {:induction false} AbsorbWhole(compress: Compression, h: Words, m: Bytes)
    ensures Absorb(compress, h, m) == Absorb(compress, h, m[..|m| - |m| % BLOCK])
    decreases |m|
  {
    if |m| >= BLOCK {
      var whole := m[..|m| - |m| % BLOCK];
      assert whole[..BLOCK] == m[..BLOCK];
      assert m[BLOCK..][..|m| - BLOCK - |m| % BLOCK] == whole[BLOCK..];
      AbsorbWhole(compress, compress(h, m[..BLOCK]), m[BLOCK..]);
    }
  }

  /** Completing the current block absorbs it. */
  lemma AbsorbBlock(compress: Compression, h: Words, m: Bytes, block: Bytes)
    requires |m| % BLOCK == 0 && |block| == BLOCK
    ensures Absorb(compress, h, m + block) == compress(Absorb(compress, h, m), block)
  {
    AbsorbConcat(compress, h, m, block);
    assert block[..BLOCK] == block && |block[BLOCK..]| == 0;
  }

  /** A message of `n` bytes, its one bit, `k` zeros and the length field fill whole blocks. */
  ghost predicate FillsBlocks(n: nat, k: nat) {
    (n + 1 + k + 8) % BLOCK == 0
  }

  lemma ZeroCountIsLeast(n: nat)
    ensures FillsBlocks(n, ZeroCount(n))
    ensures forall k: nat :: FillsBlocks(n, k) ==> ZeroCount(n) <= k
  {
    var r := n % BLOCK;
    assert n == BLOCK * (n / BLOCK) + r;
    forall k: nat
      ensures FillsBlocks(n, k) <==> (r + 9 + k) % BLOCK == 0
    {
      assert n + 1 + k + 8 == BLOCK * (n / BLOCK) + (r + 9 + k);
    }
    assert ZeroCount(n) == if r <= 55 then 55 - r else 119 - r;
  }

  /** The padded message is a whole number of blocks, and no shorter zero run achieves that. */
  lemma PaddedIsWhole(m: Bytes)
    ensures |Padded(m)| % BLOCK == 0
    ensures forall k: nat :: FillsBlocks(|m|, k) ==> ZeroCount(|m|) <= k
  {
    ZeroCountIsLeast(|m|);
  }

  lemma {:induction false} BigEndianInjective(a: nat, b: nat, width: nat)
    requires BigEndian(a, width) == BigEndian(b, width)
    requires a < Power256(width) && b < Power256(width)
    ensures a == b
  {
    if width > 0 {
      var (x, y) := (BigEndian(a / 256, width - 1), BigEndian(b / 256, width - 1));
      assert (x + [a % 256])[..width - 1] == x && (y + [b % 256])[..width - 1] == y;
      assert (x + [a % 256])[width - 1] == a % 256 && (y + [b % 256])[width - 1] == b % 256;
      BigEndianInjective(a / 256, b / 256, width - 1);
    }
  }

  /** Byte `k` is the number's digit of that weight, the highest first. */
  lemma {:induction false} BigEndianDigit(n: nat, width: nat, k: nat)
    requires k < width
    ensures Power256(width - 1 - k) > 0 && BigEndian(n, width)[k] == n / Power256(width - 1 - k) % 256
  {
    Power256Positive(width - 1 - k);
    if k < width - 1 {
      Power256Positive(width - 2 - k);
      BigEndianDigit(n / 256, width - 1, k);
      DivideTwice(n, 256, Power256(width - 2 - k));
    }
  }

  /** What stands where in a padded message: the message, a one bit, zeros, and the bit length, highest byte first. */
  lemma PaddedFields(m: Bytes, k: nat)
    requires k < |Padded(m)|
    ensures k < |m| ==> Padded(m)[k] == m[k]
    ensures k == |m| ==> Padded(m)[k] == 0x80
    ensures |m| < k < |Padded(m)| - 8 ==> Padded(m)[k] == 0
    ensures var at := k - (|Padded(m)| - 8);
            at >= 0 ==> Power256(7 - at) > 0 && Padded(m)[k] == |m| * 8 % TWO_64 / Power256(7 - at) % 256
  {
    var (z, l) := (Zeros(ZeroCount(|m|)), BigEndian(|m| * 8 % TWO_64, 8));
    var at := k - (|Padded(m)| - 8);
    if at >= 0 { BigEndianDigit(|m| * 8 % TWO_64, 8, at); }
    hide BigEndian, ZeroCount, Zeros;
    assert Padded(m) == m + [0x80] + z + l;
  }

  /** Byte `4 i + k` of a digest is that byte of its word `i`, the highest first. */
  lemma DigestBytes(compress: Compression, m: Bytes, i: nat, k: nat)
    requires i < 8 && k < 4
    ensures var h := Absorb(compress, INITIAL, Padded(m));
            |Digest(compress, m)| == 32 && Power256(3 - k) > 0 && Digest(compress, m)[4 * i + k] == h[i] / Power256(3 - k) % 256
  {
    hide Absorb, Padded, BigEndian;
    var h := Absorb(compress, INITIAL, Padded(m));
    SerializedAt(h, 8, i, k);
    BigEndianDigit(h[i], 4, k);
  }

  lemma {:induction false} SerializedAt(h: Words, n: nat, i: nat, k: nat)
    requires i < n <= 8 && k < 4
    ensures |Serialize(h, n)| == 4 * n && Serialize(h, n)[4 * i + k] == BigEndian(h[i], 4)[k]
  {
    hide BigEndian;
    SerializedLength(h, n - 1);
    if i < n - 1 { SerializedAt(h, n - 1, i, k); }
  }

  lemma {:induction false} SerializedLength(h: Words, n: nat)
    requires n <= 8
    ensures |Serialize(h, n)| == 4 * n
  {
    hide BigEndian;
    if n > 0 { SerializedLength(h, n - 1); }
  }

  /** Below the standard's length limit different messages have different paddings. */
  lemma PaddingInjective(m: Bytes, n: Bytes)
    requires |m| * 8 < TWO_64 && |n| * 8 < TWO_64
    requires Padded(m) == Padded(n)
    ensures m == n
  {
    hide BigEndian, ZeroCount, Zeros;
    PaddedParts(m);
    PaddedParts(n);
    Powers();
    BigEndianInjective(|m| * 8, |n| * 8, 8);
  }

  lemma PaddedParts(m: Bytes)
    requires |m| * 8 < TWO_64
    ensures var p := Padded(m); |p| >= |m| + 8 && p[..|m|] == m && p[|p| - 8..] == BigEndian(|m| * 8, 8)
  {
    hide BigEndian, ZeroCount, Zeros;
    var (z, l) := ([0x80] + Zeros(ZeroCount(|m|)), BigEndian(|m| * 8, 8));
    assert Padded(m) == m + z + l;
  }

  // ------------------------------------------------------------------ the context

  class Context {
    const compress: Compression
    var state: Words
    var total: u64
    const buffer: array<byte>
    var bufferLen: nat

    /** Everything fed so far. */
    ghost var message: Bytes

    /** The buffer holds the incomplete block, the state everything before it. */
    ghost predicate Holds(m: Bytes)
      reads this, buffer
    {
      && buffer.Length == BLOCK
      && bufferLen == |m| % BLOCK
      && buffer[..bufferLen] == m[|m| - bufferLen..]
      && state == Absorb(compress, INITIAL, m[..|m| - bufferLen])
    }

    ghost predicate Valid()
      reads this, buffer
    {
      Holds(message) && total == |message| % TWO_64
    }

    constructor (compress: Compression)
      ensures Valid() && fresh(buffer) && message == [] && this.compress == compress
    {
      this.compress := compress;
      state := INITIAL;
      total := 0;
      buffer := new byte[BLOCK](_ => 0);
      bufferLen := 0;
      message := [];
    }

    method Update(data: Bytes)
      requires Valid()
      modifies this, buffer
      ensures Valid() && message == old(message) + data
    {
      hide Absorb;
      TotalAdds(|message|, |data|);
      total := (total + |data|) % TWO_64;
      Feed(data);
    }

    static lemma TotalAdds(n: nat, k: nat)
      ensures (n % TWO_64 + k) % TWO_64 == (n + k) % TWO_64
    {
      var (q, r) := (n / TWO_64, n % TWO_64);
      assert n + k == (r + k) / TWO_64 * TWO_64 + (r + k) % TWO_64 + q * TWO_64;
    }

    /** The copying loop of an update. */
    method Feed(data: Bytes)
      requires Holds(message)
      modifies this, buffer
      ensures Holds(message) && message == old(message) + data && total == old(total)
    {
      hide Absorb;
      var fed := 0;
      while fed < |data|
        invariant fed <= |data| && total == old(total)
        invariant Holds(message) && message == old(message) + data[..fed]
      {
        var take := Room();
        hide Holds;
        if take > |data| - fed { take := |data| - fed; }
        Continues(old(message), data, fed, fed + take);
        Fill(data[fed..fed + take]);
        fed := fed + take;
      }
      assert data[..|data|] == data;
    }

    static lemma Continues(before: Bytes, data: Bytes, i: nat, j: nat)
      requires i <= j <= |data|
      ensures (before + data[..i]) + data[i..j] == before + data[..j]
    {
    }

    /** Space left in the block buffer. */
    function Room(): (n: nat)
      requires buffer.Length == BLOCK && bufferLen < BLOCK
      reads this
      ensures 0 < n <= BLOCK
    {
      BLOCK - bufferLen
    }

    /** Copies a chunk that fits into the buffer and compresses the block once it is full. */
    method Fill(chunk: Bytes)
      requires Holds(message) && bufferLen + |chunk| <= BLOCK
      modifies this, buffer
      ensures Holds(message) && message == old(message) + chunk && total == old(total)
    {
      ghost var (whole, tail) := (message[..|message| - bufferLen], message[|message| - bufferLen..] + chunk);
      WholeLength(|whole|, |tail|);
      CutLonger(message, chunk, bufferLen);
      hide Absorb;
      assert buffer.Length == BLOCK && |whole| % BLOCK == 0 && |tail| == bufferLen + |chunk|;
      assert state == Absorb(compress, INITIAL, whole);
      hide Holds;
      CopyIn(chunk, tail[..bufferLen]);
      message := message + chunk;
      bufferLen := bufferLen + |chunk|;
      if bufferLen == BLOCK {
        assert buffer[..] == tail;
        AbsorbBlock(compress, INITIAL, whole, tail);
        state := compress(state, buffer[..]);
        bufferLen := 0;
        assert message + [] == message;
        HoldsIs(message, []);
      } else {
        HoldsIs(whole, tail);
      }
    }

    /** Copies a chunk behind what the buffer holds. */
    method CopyIn(chunk: Bytes, ghost before: Bytes)
      requires buffer.Length == BLOCK && bufferLen + |chunk| <= BLOCK && buffer[..bufferLen] == before
      modifies buffer
      ensures buffer[..bufferLen + |chunk|] == before + chunk
    {
      forall i | 0 <= i < |chunk| { buffer[bufferLen + i] := chunk[i]; }
    }

    lemma HoldsIs(whole: Bytes, tail: Bytes)
      requires message == whole + tail && |whole| % BLOCK == 0 && |tail| == bufferLen < BLOCK == buffer.Length
      requires buffer[..bufferLen] == tail && state == Absorb(compress, INITIAL, whole)
      ensures Holds(message)
    {
      hide Absorb;
      WholeLength(|whole|, |tail|);
      assert message[..|message| - bufferLen] == whole && message[|message| - bufferLen..] == tail;
    }

    static lemma OneZeroMore(m: Bytes, zeros: nat)
      ensures m + Zeros(zeros) + [0] == m + Zeros(zeros + 1)
    {
    }

    /** A message longer by a chunk, cut where the absorbed blocks end. */
    static lemma CutLonger(m: Bytes, chunk: Bytes, n: nat)
      requires n <= |m|
      ensures var (whole, tail) := (m[..|m| - n], m[|m| - n..] + chunk);
              && m + chunk == whole + tail && |tail| == n + |chunk|
              && (m + chunk)[..|m + chunk| - |tail|] == whole && (m + chunk)[|m + chunk| - |tail|..] == tail
    {
    }

    static lemma WholeLength(w: nat, t: nat)
      requires w % BLOCK == 0 && t <= BLOCK
      ensures (w + t) % BLOCK == if t == BLOCK then 0 else t
    {
    }

    method Final() returns (digest: Bytes)
      requires Valid()
      modifies this, buffer
      ensures digest == Digest(compress, old(message))
    {
      var bitLen := total * 8 % TWO_64;
      BitLength(|message|);
      PadZeros();
      LastBlock(BigEndian(bitLen, 8), old(message));
      digest := [];
      for i := 0 to 8
        invariant digest == Serialize(state, i)
      {
        digest := digest + BigEndian(state[i], 4);
      }
    }

    /** Appends the one bit and then single zero bytes until the length field fits exactly. */
    method PadZeros()
      requires Valid()
      modifies this, buffer
      ensures Valid() && bufferLen == LENGTH_AT
      ensures message == old(message) + [0x80] + Zeros(ZeroCount(|old(message)|))
    {
      hide Absorb, ZeroCount;
      Update([0x80]);
      ghost var (n, zeros) := (|old(message)|, 0);
      while bufferLen != LENGTH_AT
        invariant Valid() && zeros <= ZeroCount(n) && message == old(message) + [0x80] + Zeros(zeros)
        decreases ZeroCount(n) - zeros
      {
        ZerosLeft(n, zeros);
        OneZeroMore(old(message) + [0x80], zeros);
        Update([0x00]);
        zeros := zeros + 1;
      }
      ZerosLeft(n, zeros);
    }

    /** Puts the length field behind a block filled up to it and compresses. */
    method LastBlock(lengthField: Bytes, ghost m: Bytes)
      requires Holds(message) && bufferLen == LENGTH_AT
      requires lengthField == BigEndian(|m| * 8 % TWO_64, 8)
      requires message == m + [0x80] + Zeros(ZeroCount(|m|))
      modifies this, buffer
      ensures state == Absorb(compress, INITIAL, Padded(m))
    {
      hide Absorb, BigEndian, ZeroCount, Zeros;
      ghost var whole := message[..|message| - LENGTH_AT];
      ghost var tail := message[|message| - LENGTH_AT..] + lengthField;
      forall i | 0 <= i < 8 { buffer[bufferLen + i] := lengthField[i]; }
      assert buffer[..] == tail;
      Regroup(message, lengthField, |message| - LENGTH_AT);
      assert Padded(m) == message + lengthField;
      AbsorbBlock(compress, INITIAL, whole, tail);
      state := compress(state, buffer[..]);
      bufferLen := 0;
    }

    static lemma Regroup(a: Bytes, b: Bytes, k: nat)
      requires k <= |a|
      ensures a + b == a[..k] + (a[k..] + b)
    {
    }

    static lemma BitLength(n: nat)
      ensures n % TWO_64 * 8 % TWO_64 == n * 8 % TWO_64
    {
      var (q, r) := (n / TWO_64, n % TWO_64);
      assert n * 8 == r * 8 + 8 * q * TWO_64;
      assert r * 8 == r * 8 / TWO_64 * TWO_64 + r * 8 % TWO_64;
    }

    /** The buffer reaches the length field's place exactly after the least number of zeros. */
    static lemma ZerosLeft(n: nat, zeros: nat)
      requires zeros <= ZeroCount(n)
      ensures (n + 1 + zeros) % BLOCK == LENGTH_AT <==> zeros == ZeroCount(n)
    {
      ZeroCountIsLeast(n);
      assert (n + 1 + zeros) % BLOCK == LENGTH_AT <==> FillsBlocks(n, zeros);
    }
  }

  method OneShot(compress: Compression, data: Bytes) returns (digest: Bytes)
    ensures digest == Digest(compress, data)
  {
    var ctx := new Context(compress);
    ctx.Update(data);
    assert [] + data == data;
    digest := ctx.Final();
  }

  function Flatten(parts: seq<Bytes>): Bytes {
    if parts == [] then [] else Flatten(parts[..|parts| - 1]) + parts[|parts| - 1]
  }

  /** Any split of a message into updates gives the one-shot digest. */
  method InParts(compress: Compression, parts: seq<Bytes>) returns (digest: Bytes)
    ensures digest == Digest(compress, Flatten(parts))
  {
    var ctx := new Context(compress);
    for i := 0 to |parts|
      invariant ctx.Valid() && fresh(ctx) && fresh(ctx.buffer) && ctx.compress == compress
      invariant ctx.message == Flatten(parts[..i])
    {
      ctx.Update(parts[i]);
      assert parts[..i + 1][..i] == parts[..i];
    }
    assert parts[..|parts|] == parts;
    digest := ctx.Final();
  }
}
