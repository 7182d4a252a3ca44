/** CRC-32/ISO-HDLC: the table-driven loop equals the bit-serial definition (sample
    code in section 8 of RFC 1952), and what changes of the data it always notices. */
module Crc32 {
  import opened Machine

  const POLYNOMIAL: bv32 := 0xEDB88320
  const ALL_ONES: bv32 := 0xFFFFFFFF

  /** The bits of a byte, as the low bits of a register. */
  function Bits(b: byte): bv32 {
    Pack(Odd(b, 0), Odd(b, 1), Odd(b, 2), Odd(b, 3), Odd(b, 4), Odd(b, 5), Odd(b, 6), Odd(b, 7))
  }

  /** Bit `k` of `n`. */
  predicate Odd(n: nat, k: nat) {
    if k == 0 then n % 2 == 1 else Odd(n / 2, k - 1)
  }

  function Pack(p0: bool, p1: bool, p2: bool, p3: bool, p4: bool, p5: bool, p6: bool, p7: bool): bv32 {
    Bit(p0, 1) | Bit(p1, 2) | Bit(p2, 4) | Bit(p3, 8) | Bit(p4, 16) | Bit(p5, 32) | Bit(p6, 64) | Bit(p7, 128)
  }

  function Bit(on: bool, mask: bv32): bv32 {
    if on then mask else 0
  }

  /** The register read as an integer, its lowest bit counting one. */
  function Value(c: bv32): u32 {
    PowersOfTwo();
    Digits(c, 32)
  }

  function Digits(c: bv32, n: nat): (v: nat)
    ensures v < PowerOfTwo(n)
  {
    if n == 0 then 0 else (if c & 1 == 1 then 1 else 0) + 2 * Digits(c >> 1, n - 1)
  }

  function Xor(a: bv32, b: bv32): bv32 {
    a ^ b
  }

  function Low(c: bv32): bv32 {
    c & 0xFF
  }

  function High(c: bv32): bv32 {
    c >> 8
  }

  /** One step of the reflected shift register. */
  function Shift(c: bv32): bv32 {
    if c & 1 == 1 then POLYNOMIAL ^ (c >> 1) else c >> 1
  }

  function Shifts(c: bv32, n: nat): bv32 {
    if n == 0 then c else Shift(Shifts(c, n - 1))
  }

  /** Feeding one byte, bit by bit. */
  function Feed(c: bv32, b: byte): bv32 {
    Shifts(Xor(c, Bits(b)), 8)
  }

  function Register(c: bv32, data: Bytes): bv32 {
    if data == [] then c else Feed(Register(c, data[..|data| - 1]), data[|data| - 1])
  }

  function Crc(data: Bytes): u32 {
    Value(Xor(Register(ALL_ONES, data), ALL_ONES))
  }

  method TableEntry(i: bv32) returns (c: bv32)
    ensures c == Shifts(i, 8)
  {
    c := i;
    for j := 0 to 8
      invariant c == Shifts(i, j)
    {
      c := if c & 1 == 1 then POLYNOMIAL ^ (c >> 1) else c >> 1;
    }
  }

  /** The table-driven computation, one table entry per byte. */
  method Compute(data: Bytes) returns (result: u32)
    ensures result == Crc(data)
  {
    hide Bits, Xor, Low, High, Shifts, Value;
    var crc := ALL_ONES;
    for i := 0 to |data|
      invariant crc == Register(ALL_ONES, data[..i])
    {
      var entry := TableEntry(Low(Xor(crc, Bits(data[i]))));
      TableStepIsBitSerial(crc, data[i]);
      crc := Xor(entry, High(crc));
      assert data[..i + 1][..i] == data[..i];
    }
    assert data[..|data|] == data;
    result := Value(Xor(crc, ALL_ONES));
  }

  // ------------------------------------------------------------------- linearity

  lemma ShiftLinear(a: bv32, b: bv32)
    ensures Shift(Xor(a, b)) == Xor(Shift(a), Shift(b))
  {
    hide Shift;
    ShiftOfXor(a, b);
  }

  lemma ShiftOfXor(a: bv32, b: bv32)
    ensures Shift(a ^ b) == Shift(a) ^ Shift(b)
  {
    XorShifted(a, b);
    XorLowBit(a, b);
    LowBit(a);
    LowBit(b);
    XorTwice(POLYNOMIAL, a >> 1, b >> 1);
    XorOnce(POLYNOMIAL, a >> 1, b >> 1);
  }

  lemma XorShifted(a: bv32, b: bv32)
    ensures (a ^ b) >> 1 == (a >> 1) ^ (b >> 1)
  {
  }

  lemma XorLowBit(a: bv32, b: bv32)
    ensures (a ^ b) & 1 == (a & 1) ^ (b & 1)
  {
  }

  lemma LowBit(a: bv32)
    ensures a & 1 == 0 || a & 1 == 1
  {
  }

  lemma XorTwice(p: bv32, a: bv32, b: bv32)
    ensures (p ^ a) ^ (p ^ b) == a ^ b
  {
  }

  lemma XorOnce(p: bv32, a: bv32, b: bv32)
    ensures (p ^ a) ^ b == p ^ (a ^ b) && (p ^ a) ^ b == a ^ (p ^ b)
  {
  }

  lemma XorAssociates(a: bv32, b: bv32, c: bv32)
    ensures Xor(Xor(a, b), c) == Xor(a, Xor(b, c))
  {
  }

  lemma {:induction false} ShiftsLinear(a: bv32, b: bv32, n: nat)
    ensures Shifts(Xor(a, b), n) == Xor(Shifts(a, n), Shifts(b, n))
  {
    if n > 0 {
      hide Xor, Shift;
      ShiftsLinear(a, b, n - 1);
      ShiftLinear(Shifts(a, n - 1), Shifts(b, n - 1));
    }
  }

  /** The inverse of one register step: the polynomial's top bit marks which branch was taken. */
  function Unshift(d: bv32): bv32 {
    if d & 0x80000000 == 0x80000000 then ((d ^ POLYNOMIAL) << 1) | 1 else d << 1
  }

  lemma UnshiftShift(c: bv32)
    ensures Unshift(Shift(c)) == c
  {
  }

  lemma {:induction false} ShiftsInjective(a: bv32, b: bv32, n: nat)
    requires Shifts(a, n) == Shifts(b, n)
    ensures a == b
  {
    if n > 0 {
      UnshiftShift(Shifts(a, n - 1));
      UnshiftShift(Shifts(b, n - 1));
      ShiftsInjective(a, b, n - 1);
    }
  }

  /** Without a low byte, eight steps are a plain shift. */
  lemma NoLowByte(c: bv32)
    requires Low(c) == 0
    ensures Shifts(c, 8) == High(c)
  {
    Unrolled(c);
    EightShifts(c);
  }

  lemma EightShifts(c: bv32)
    requires Low(c) == 0
    ensures Shift(Shift(Shift(Shift(Shift(Shift(Shift(Shift(c)))))))) == High(c)
  {
  }

  lemma Unrolled(c: bv32)
    ensures Shifts(c, 8) == Shift(Shift(Shift(Shift(Shift(Shift(Shift(Shift(c))))))))
  {
    hide Shift;
    assert Shifts(c, 1) == Shift(c);
    assert Shifts(c, 2) == Shift(Shifts(c, 1));
    assert Shifts(c, 3) == Shift(Shifts(c, 2));
    assert Shifts(c, 4) == Shift(Shifts(c, 3));
    assert Shifts(c, 5) == Shift(Shifts(c, 4));
    assert Shifts(c, 6) == Shift(Shifts(c, 5));
    assert Shifts(c, 7) == Shift(Shifts(c, 6));
  }

  lemma SplitLowByte(c: bv32)
    ensures var h := c & 0xFFFFFF00; c == Xor(Low(c), h) && Low(h) == 0 && High(h) == High(c)
  {
  }

  /** The step the table lookup performs is eight bit-serial steps. */
  lemma TableStepIsBitSerial(c: bv32, b: byte)
    ensures Xor(Shifts(Low(Xor(c, Bits(b))), 8), High(c)) == Feed(c, b)
  {
    hide Xor, Low, High, Shift, Bits;
    var x := Xor(c, Bits(b));
    var h := x & 0xFFFFFF00;
    SplitLowByte(x);
    ShiftsLinear(Low(x), h, 8);
    NoLowByte(h);
    BitsSmall(b);
    XorLow(c, Bits(b));
  }

  lemma BitsSmall(b: byte)
    ensures Bits(b) <= 0xFF
  {
  }

  lemma XorLow(c: bv32, e: bv32)
    requires e <= 0xFF
    ensures High(Xor(c, e)) == High(c)
  {
  }

  lemma BitsInjective(a: byte, b: byte)
    requires Bits(a) == Bits(b)
    ensures a == b
  {
    hide Pack, Odd;
    PackInjective(Odd(a, 0), Odd(a, 1), Odd(a, 2), Odd(a, 3), Odd(a, 4), Odd(a, 5), Odd(a, 6), Odd(a, 7),
                  Odd(b, 0), Odd(b, 1), Odd(b, 2), Odd(b, 3), Odd(b, 4), Odd(b, 5), Odd(b, 6), Odd(b, 7));
    SameByte(a, b);
  }

  lemma SameByte(a: byte, b: byte)
    requires Odd(a, 0) == Odd(b, 0) && Odd(a, 1) == Odd(b, 1) && Odd(a, 2) == Odd(b, 2) && Odd(a, 3) == Odd(b, 3)
    requires Odd(a, 4) == Odd(b, 4) && Odd(a, 5) == Odd(b, 5) && Odd(a, 6) == Odd(b, 6) && Odd(a, 7) == Odd(b, 7)
    ensures a == b
  {
    hide Odd;
    assert PowerOfTwo(8) == 2 * PowerOfTwo(7) == 4 * PowerOfTwo(6) == 8 * PowerOfTwo(5) == 16 * PowerOfTwo(4);
    SameBits(a, b, 8);
  }

  function PowerOfTwo(n: nat): nat {
    if n == 0 then 1 else 2 * PowerOfTwo(n - 1)
  }

  lemma {:induction false} SameBits(a: nat, b: nat, n: nat)
    requires a < PowerOfTwo(n) && b < PowerOfTwo(n)
    requires forall k: nat :: k < n ==> Odd(a, k) == Odd(b, k)
    ensures a == b
  {
    if n > 0 {
      assert Odd(a, 0) == Odd(b, 0);
      forall k: nat | k < n - 1
        ensures Odd(a / 2, k) == Odd(b / 2, k)
      {
        assert Odd(a, k + 1) == Odd(b, k + 1);
      }
      SameBits(a / 2, b / 2, n - 1);
      SameHalves(a, b);
    }
  }

  lemma SameHalves(x: nat, y: nat)
    requires x / 2 == y / 2 && (x % 2 == 1) == (y % 2 == 1)
    ensures x == y
  {
  }

  lemma PackInjective(p0: bool, p1: bool, p2: bool, p3: bool, p4: bool, p5: bool, p6: bool, p7: bool,
                      q0: bool, q1: bool, q2: bool, q3: bool, q4: bool, q5: bool, q6: bool, q7: bool)
    requires Pack(p0, p1, p2, p3, p4, p5, p6, p7) == Pack(q0, q1, q2, q3, q4, q5, q6, q7)
    ensures p0 == q0 && p1 == q1 && p2 == q2 && p3 == q3 && p4 == q4 && p5 == q5 && p6 == q6 && p7 == q7
  {
  }

  lemma XorCancels(c: bv32, a: bv32, b: bv32)
    ensures Xor(c, a) == Xor(c, b) ==> a == b
    ensures Xor(a, c) == Xor(b, c) ==> a == b
  {
    assert c ^ (c ^ a) == a && c ^ (c ^ b) == b;
    assert (a ^ c) ^ c == a && (b ^ c) ^ c == b;
  }

  // ------------------------------------------------------------ detected changes

  /** Feeding is injective in the register and in the byte. */
  lemma FeedInjective(c: bv32, a: byte, d: bv32, b: byte)
    requires Feed(c, a) == Feed(d, b) && (c == d || a == b)
    ensures c == d && a == b
  {
    hide Xor, Bits, Shifts;
    ShiftsInjective(Xor(c, Bits(a)), Xor(d, Bits(b)), 8);
    XorCancels(c, Bits(a), Bits(b));
    XorCancels(Bits(a), c, d);
    if c == d {
      BitsInjective(a, b);
    }
  }

  lemma {:induction false} RegisterConcat(c: bv32, a: Bytes, b: Bytes)
    ensures Register(c, a + b) == Register(Register(c, a), b)
  {
    hide Feed;
    if b == [] {
      assert a + b == a;
    } else {
      var n := |b| - 1;
      RegisterConcat(c, a, b[..n]);
      assert (a + b)[..|a + b| - 1] == a + b[..n];
    }
  }

  lemma {:induction false} RegisterInjective(c: bv32, d: bv32, data: Bytes)
    requires Register(c, data) == Register(d, data)
    ensures c == d
  {
    hide Feed;
    if data != [] {
      var n := |data| - 1;
      FeedInjective(Register(c, data[..n]), data[n], Register(d, data[..n]), data[n]);
      RegisterInjective(c, d, data[..n]);
    }
  }

  lemma FinalXorInjective(a: bv32, b: bv32)
    requires Value(Xor(a, ALL_ONES)) == Value(Xor(b, ALL_ONES))
    ensures a == b
  {
    hide Xor, Value;
    ValueInjective(Xor(a, ALL_ONES), Xor(b, ALL_ONES));
    XorCancels(ALL_ONES, a, b);
  }

  lemma ValueInjective(a: bv32, b: bv32)
    requires Value(a) == Value(b)
    ensures a == b
  {
    NothingBeyond(a);
    NothingBeyond(b);
    DigitsInjective(a, b, 32);
  }

  function Halved(c: bv32, k: nat): bv32 {
    if k == 0 then c else Halved(c >> 1, k - 1)
  }

  lemma {:induction false} DigitsInjective(a: bv32, b: bv32, n: nat)
    requires Digits(a, n) == Digits(b, n) && Halved(a, n) == 0 && Halved(b, n) == 0
    ensures a == b
    decreases n
  {
    if n > 0 {
      LowBit(a);
      LowBit(b);
      SameParity(a & 1 == 1, Digits(a >> 1, n - 1), b & 1 == 1, Digits(b >> 1, n - 1));
      DigitsInjective(a >> 1, b >> 1, n - 1);
      Reassembled(a);
      Reassembled(b);
    }
  }

  lemma SameParity(p: bool, x: nat, q: bool, y: nat)
    requires (if p then 1 else 0) + 2 * x == (if q then 1 else 0) + 2 * y
    ensures p == q && x == y
  {
  }

  lemma Reassembled(c: bv32)
    ensures ((c >> 1) << 1) | (c & 1) == c
  {
  }

  lemma {:induction false} HalvedAgain(c: bv32, j: nat, k: nat)
    ensures Halved(Halved(c, j), k) == Halved(c, j + k)
    decreases j
  {
    if j > 0 { HalvedAgain(c >> 1, j - 1, k); }
  }

  function Half(c: bv32): bv32 {
    c >> 1
  }

  function Shifted(c: bv32, k: nat): bv32
    requires k <= 8
  {
    match k
    case 0 => c
    case 1 => c >> 1
    case 2 => c >> 2
    case 3 => c >> 3
    case 4 => c >> 4
    case 5 => c >> 5
    case 6 => c >> 6
    case 7 => c >> 7
    case _ => c >> 8
  }

  lemma {:induction false} HalvedIs(c: bv32, k: nat)
    requires k <= 8
    ensures Halved(c, k) == Shifted(c, k)
  {
    if k > 0 {
      HalvedIs(c, k - 1);
      HalvedOnce(c, k - 1);
      ShiftedOnce(c, k - 1);
      hide *;
    }
  }

  lemma HalvedOnce(c: bv32, k: nat)
    ensures Halved(c, k + 1) == Half(Halved(c, k))
  {
    HalvedAgain(c, k, 1);
    assert Halved(Halved(c, k), 1) == Halved(Halved(c, k) >> 1, 0);
  }

  lemma ShiftedOnce(c: bv32, k: nat)
    requires k < 8
    ensures Shifted(c, k + 1) == Half(Shifted(c, k))
  {
    Next0(c);
    Next1(c);
    Next2(c);
    Next3(c);
    Next4(c);
    Next5(c);
    Next6(c);
    Next7(c);
    hide *;
    assert k == 0 || k == 1 || k == 2 || k == 3 || k == 4 || k == 5 || k == 6 || k == 7;
  }

  lemma Next0(c: bv32)
    ensures Shifted(c, 1) == Half(Shifted(c, 0))
  {
  }

  lemma Next1(c: bv32)
    ensures Shifted(c, 2) == Half(Shifted(c, 1))
  {
  }

  lemma Next2(c: bv32)
    ensures Shifted(c, 3) == Half(Shifted(c, 2))
  {
  }

  lemma Next3(c: bv32)
    ensures Shifted(c, 4) == Half(Shifted(c, 3))
  {
  }

  lemma Next4(c: bv32)
    ensures Shifted(c, 5) == Half(Shifted(c, 4))
  {
  }

  lemma Next5(c: bv32)
    ensures Shifted(c, 6) == Half(Shifted(c, 5))
  {
  }

  lemma Next6(c: bv32)
    ensures Shifted(c, 7) == Half(Shifted(c, 6))
  {
  }

  lemma Next7(c: bv32)
    ensures Shifted(c, 8) == Half(Shifted(c, 7))
  {
  }

  lemma NothingBeyond(c: bv32)
    ensures Halved(c, 32) == 0
  {
    HalvedIs(c, 8);
    HalvedIs(Halved(c, 8), 8);
    HalvedIs(Halved(c, 16), 8);
    HalvedIs(Halved(c, 24), 8);
    HalvedAgain(c, 8, 8);
    HalvedAgain(c, 16, 8);
    HalvedAgain(c, 24, 8);
    ByteByByte(c);
    hide *;
  }

  lemma ByteByByte(c: bv32)
    ensures Shifted(Shifted(Shifted(Shifted(c, 8), 8), 8), 8) == 0
  {
  }

  lemma PowersOfTwo()
    ensures PowerOfTwo(8) == 256 && PowerOfTwo(32) == TWO_32
  {
    assert PowerOfTwo(4) == 16;
    assert PowerOfTwo(12) == 16 * PowerOfTwo(8);
    assert PowerOfTwo(16) == 16 * PowerOfTwo(12);
    assert PowerOfTwo(20) == 16 * PowerOfTwo(16);
    assert PowerOfTwo(24) == 16 * PowerOfTwo(20);
    assert PowerOfTwo(28) == 16 * PowerOfTwo(24);
    assert PowerOfTwo(32) == 16 * PowerOfTwo(28);
  }

  /** Equal checksums of data that agree outside a window leave equal registers after the window. */
  lemma WindowReached(x: Bytes, y: Bytes, i: nat, n: nat)
    requires |x| == |y| && i + n <= |x| && Crc(x) == Crc(y)
    requires x[..i] == y[..i] && x[i + n..] == y[i + n..]
    ensures var c := Register(ALL_ONES, x[..i]); Register(c, x[i..i + n]) == Register(c, y[i..i + n])
  {
    hide Register, Xor, Value;
    var c := Register(ALL_ONES, x[..i]);
    assert x == x[..i] + x[i..i + n] + x[i + n..] && y == x[..i] + y[i..i + n] + x[i + n..];
    RegisterConcat(ALL_ONES, x[..i] + x[i..i + n], x[i + n..]);
    RegisterConcat(ALL_ONES, x[..i] + y[i..i + n], x[i + n..]);
    RegisterConcat(ALL_ONES, x[..i], x[i..i + n]);
    RegisterConcat(ALL_ONES, x[..i], y[i..i + n]);
    FinalXorInjective(Register(ALL_ONES, x), Register(ALL_ONES, y));
    RegisterInjective(Register(c, x[i..i + n]), Register(c, y[i..i + n]), x[i + n..]);
  }

  /** Changing any single byte changes the checksum. */
  lemma ByteChangeDetected(data: Bytes, i: nat, b: byte)
    requires i < |data| && b != data[i]
    ensures Crc(data[i := b]) != Crc(data)
  {
    hide Crc, Feed;
    if Crc(data[i := b]) == Crc(data) {
      WindowReached(data, data[i := b], i, 1);
      var c := Register(ALL_ONES, data[..i]);
      assert data[i..i + 1] == [data[i]] && data[i := b][i..i + 1] == [b];
      OneByte(c, data[i]);
      OneByte(c, b);
      FeedInjective(c, data[i], c, b);
    }
  }

  lemma OneByte(c: bv32, b: byte)
    ensures Register(c, [b]) == Feed(c, b)
  {
    hide Feed;
    assert [b][..0] == [];
  }

  /** Any change confined to four consecutive bytes changes the checksum. */
  lemma FourByteChangeDetected(x: Bytes, y: Bytes, i: nat)
    requires |x| == |y| && i + 4 <= |x| && x != y
    requires x[..i] == y[..i] && x[i + 4..] == y[i + 4..]
    ensures Crc(x) != Crc(y)
  {
    hide Crc, Register;
    if Crc(x) == Crc(y) {
      assert x == x[..i] + x[i..i + 4] + x[i + 4..] && y == y[..i] + y[i..i + 4] + y[i + 4..];
      WindowReached(x, y, i, 4);
      FourInjective(Register(ALL_ONES, x[..i]), x[i..i + 4], y[i..i + 4]);
    }
  }

  /** Five bytes are too many: these two windows give the same checksum anywhere in any data. */
  lemma FiveByteChangeMissed(before: Bytes, after: Bytes)
    ensures Crc(before + [0x4E, 0xD4, 0x67, 0x41, 0x76] + after) == Crc(before + [0x4F, 0x42, 0x57, 0x46, 0x01] + after)
  {
    var x: Bytes, y: Bytes := [0x4E, 0xD4, 0x67, 0x41, 0x76], [0x4F, 0x42, 0x57, 0x46, 0x01];
    hide Register, Feed, Xor, Value;
    var c := Register(ALL_ONES, before);
    RegisterConcat(ALL_ONES, before + x, after);
    RegisterConcat(ALL_ONES, before + y, after);
    RegisterConcat(ALL_ONES, before, x);
    RegisterConcat(ALL_ONES, before, y);
    SameAfterFive(c, x, y);
  }

  lemma SameAfterFive(c: bv32, x: Bytes, y: Bytes)
    requires x == [0x4E, 0xD4, 0x67, 0x41, 0x76] && y == [0x4F, 0x42, 0x57, 0x46, 0x01]
    ensures Register(c, x) == Register(c, y)
  {
    hide Register, Feed, Xor, Shifts, Bits, Word;
    assert x == [x[0]] + x[1..] && y == [y[0]] + y[1..];
    RegisterConcat(c, [x[0]], x[1..]);
    RegisterConcat(c, [y[0]], y[1..]);
    OneByte(c, x[0]);
    OneByte(c, y[0]);
    var (d, e) := (Feed(c, x[0]), Feed(c, y[0]));
    FirstDiffers(c);
    FourAsWord(d, x[1..]);
    FourAsWord(e, y[1..]);
    WordsMakeUp(x[1..], y[1..]);
    MakeUp(d, Word(x[1..]), Word(y[1..]));
  }

  /** What a change of the lowest bit of a byte does to the register. */
  lemma FirstDiffers(c: bv32)
    ensures Feed(c, 0x4F) == Xor(Feed(c, 0x4E), 0x77073096)
  {
    NextBits();
    hide Bits;
    FlippedBit(c, Bits(0x4E), Bits(0x4F));
    TableOfOne();
    hide Xor, Shifts;
    ShiftsLinear(Xor(c, Bits(0x4E)), 1, 8);
  }

  lemma NextBits()
    ensures Bits(0x4F) == Xor(Bits(0x4E), 1)
  {
    assert !Odd(0x4E, 0) && Odd(0x4F, 0);
    assert Odd(0x4E, 1) && Odd(0x4F, 1);
    assert Odd(0x4E, 2) && Odd(0x4F, 2);
    assert Odd(0x4E, 3) && Odd(0x4F, 3);
    assert !Odd(0x4E, 4) && !Odd(0x4F, 4);
    assert !Odd(0x4E, 5) && !Odd(0x4F, 5);
    assert Odd(0x4E, 6) && Odd(0x4F, 6);
    assert !Odd(0x4E, 7) && !Odd(0x4F, 7);
  }

  lemma FlippedBit(c: bv32, a: bv32, b: bv32)
    requires b == Xor(a, 1)
    ensures Xor(c, b) == Xor(Xor(c, a), 1)
  {
    hide Xor;
    XorAssociates(c, a, 1);
  }

  lemma TableOfOne()
    ensures Shifts(1, 8) == 0x77073096
  {
    Unrolled(1);
    assert Shift(1) == 0xEDB88320;
    assert Shift(0xEDB88320) == 0x76DC4190;
    assert Shift(0x76DC4190) == 0x3B6E20C8;
    assert Shift(0x3B6E20C8) == 0x1DB71064;
    assert Shift(0x1DB71064) == 0x0EDB8832;
    assert Shift(0x0EDB8832) == 0x076DC419;
    assert Shift(0x076DC419) == 0xEE0E612C;
    assert Shift(0xEE0E612C) == 0x77073096;
  }

  lemma WordsMakeUp(x: Bytes, y: Bytes)
    requires x == [0xD4, 0x67, 0x41, 0x76] && y == [0x42, 0x57, 0x46, 0x01]
    ensures Xor(Word(x), Word(y)) == 0x77073096
  {
    Packed();
    hide Bits, Pack, Word, Join, Xor;
    BitsOf(x[0], false, false, true, false, true, false, true, true);
    BitsOf(x[1], true, true, true, false, false, true, true, false);
    BitsOf(x[2], true, false, false, false, false, false, true, false);
    BitsOf(x[3], false, true, true, false, true, true, true, false);
    BitsOf(y[0], false, true, false, false, false, false, true, false);
    BitsOf(y[1], true, true, true, false, true, false, true, false);
    BitsOf(y[2], false, true, true, false, false, false, true, false);
    BitsOf(y[3], true, false, false, false, false, false, false, false);
    WordFrom(x, 0xD4, 0x67, 0x41, 0x76);
    WordFrom(y, 0x42, 0x57, 0x46, 0x01);
    JoinedWords();
  }

  lemma WordFrom(x: Bytes, a: bv32, b: bv32, c: bv32, d: bv32)
    requires |x| == 4 && Bits(x[0]) == a && Bits(x[1]) == b && Bits(x[2]) == c && Bits(x[3]) == d
    ensures Word(x) == Join(a, Join(b, Join(c, d)))
  {
    hide Bits, Join;
  }

  lemma Packed()
    ensures Pack(false, false, true, false, true, false, true, true) == 0xD4
    ensures Pack(true, true, true, false, false, true, true, false) == 0x67
    ensures Pack(true, false, false, false, false, false, true, false) == 0x41
    ensures Pack(false, true, true, false, true, true, true, false) == 0x76
    ensures Pack(false, true, false, false, false, false, true, false) == 0x42
    ensures Pack(true, true, true, false, true, false, true, false) == 0x57
    ensures Pack(false, true, true, false, false, false, true, false) == 0x46
    ensures Pack(true, false, false, false, false, false, false, false) == 0x01
  {
  }

  lemma JoinedWords()
    ensures Xor(Join(0xD4, Join(0x67, Join(0x41, 0x76))), Join(0x42, Join(0x57, Join(0x46, 0x01)))) == 0x77073096
  {
  }

  lemma BitsOf(b: byte, p0: bool, p1: bool, p2: bool, p3: bool, p4: bool, p5: bool, p6: bool, p7: bool)
    requires p0 == (b % 2 == 1) && p1 == (b / 2 % 2 == 1) && p2 == (b / 2 / 2 % 2 == 1) && p3 == (b / 2 / 2 / 2 % 2 == 1)
    requires p4 == (b / 2 / 2 / 2 / 2 % 2 == 1) && p5 == (b / 2 / 2 / 2 / 2 / 2 % 2 == 1)
    requires p6 == (b / 2 / 2 / 2 / 2 / 2 / 2 % 2 == 1) && p7 == (b / 2 / 2 / 2 / 2 / 2 / 2 / 2 % 2 == 1)
    ensures Bits(b) == Pack(p0, p1, p2, p3, p4, p5, p6, p7)
  {
    hide Pack;
    var (b1, b2, b3) := (b / 2, b / 2 / 2, b / 2 / 2 / 2);
    var (b4, b5, b6) := (b3 / 2, b3 / 2 / 2, b3 / 2 / 2 / 2);
    assert Odd(b, 0) == p0 && Odd(b, 1) == Odd(b1, 0) == p1;
    assert Odd(b, 2) == Odd(b1, 1) == Odd(b2, 0) == p2;
    assert Odd(b, 3) == Odd(b1, 2) == Odd(b2, 1) == Odd(b3, 0) == p3;
    assert Odd(b, 4) == Odd(b1, 3) == Odd(b2, 2) == Odd(b3, 1) == Odd(b4, 0) == p4;
    assert Odd(b, 5) == Odd(b1, 4) == Odd(b2, 3) == Odd(b3, 2) == Odd(b4, 1) == Odd(b5, 0) == p5;
    assert Odd(b, 6) == Odd(b1, 5) == Odd(b2, 4) == Odd(b3, 3) == Odd(b4, 2) == Odd(b5, 1) == Odd(b6, 0) == p6;
    assert Odd(b, 7) == Odd(b1, 6) == Odd(b2, 5) == Odd(b3, 4) == Odd(b4, 3) == Odd(b5, 2) == Odd(b6, 1) == p7;
  }

  lemma MakeUp(d: bv32, w: bv32, v: bv32)
    requires Xor(w, v) == 0x77073096
    ensures Xor(d, w) == Xor(Xor(d, 0x77073096), v)
  {
  }

  lemma FourInjective(c: bv32, x: Bytes, y: Bytes)
    requires |x| == |y| == 4 && Register(c, x) == Register(c, y)
    ensures x == y
  {
    hide Register, Xor, Shifts, Bits, Join;
    FourAsWord(c, x);
    FourAsWord(c, y);
    ShiftsInjective(Xor(c, Word(x)), Xor(c, Word(y)), 32);
    XorCancels(c, Word(x), Word(y));
    BitsSmall(x[0]);
    BitsSmall(x[1]);
    BitsSmall(x[2]);
    BitsSmall(x[3]);
    BitsSmall(y[0]);
    BitsSmall(y[1]);
    BitsSmall(y[2]);
    BitsSmall(y[3]);
    JoinsInjective(Bits(x[0]), Bits(x[1]), Bits(x[2]), Bits(x[3]),
                   Bits(y[0]), Bits(y[1]), Bits(y[2]), Bits(y[3]));
    BitsInjective(x[0], y[0]);
    BitsInjective(x[1], y[1]);
    BitsInjective(x[2], y[2]);
    BitsInjective(x[3], y[3]);
  }

  /** Four bytes as the little-endian word they occupy in the register. */
  function Word(x: Bytes): bv32
    requires |x| == 4
  {
    Join(Bits(x[0]), Join(Bits(x[1]), Join(Bits(x[2]), Bits(x[3]))))
  }

  function Join(b: bv32, later: bv32): bv32 {
    b ^ (later << 8)
  }

  lemma JoinsInjective(a: bv32, b: bv32, c: bv32, d: bv32, a': bv32, b': bv32, c': bv32, d': bv32)
    requires a <= 0xFF && b <= 0xFF && c <= 0xFF && d <= 0xFF
    requires a' <= 0xFF && b' <= 0xFF && c' <= 0xFF && d' <= 0xFF
    requires Join(a, Join(b, Join(c, d))) == Join(a', Join(b', Join(c', d')))
    ensures a == a' && b == b' && c == c' && d == d'
  {
  }

  lemma {:induction false} ShiftsAdd(c: bv32, m: nat, n: nat)
    ensures Shifts(Shifts(c, m), n) == Shifts(c, m + n)
  {
    hide Shift;
    if n > 0 {
      ShiftsAdd(c, m, n - 1);
    }
  }

  /** Feeding a byte and then xoring later bytes is one run of eight steps. */
  lemma FeedAhead(c: bv32, b: byte, later: bv32)
    requires later <= 0xFFFFFF
    ensures Xor(Feed(c, b), later) == Shifts(Xor(c, Join(Bits(b), later)), 8)
  {
    JoinFacts(Bits(b), later);
    hide Xor, Bits, Join, Shift, Low, High;
    ShiftsLinear(Xor(c, Bits(b)), later << 8, 8);
    NoLowByte(later << 8);
    XorAssociates(c, Bits(b), later << 8);
  }

  lemma JoinFacts(b: bv32, later: bv32)
    requires later <= 0xFFFFFF
    ensures Join(b, later) == Xor(b, later << 8) && Low(later << 8) == 0 && High(later << 8) == later
  {
  }

  lemma JoinSmall(b: bv32, later: bv32)
    requires b <= 0xFF
    ensures later <= 0xFF ==> Join(b, later) <= 0xFFFF
    ensures later <= 0xFFFF ==> Join(b, later) <= 0xFFFFFF
  {
  }

  lemma FourAsWord(c: bv32, x: Bytes)
    requires |x| == 4
    ensures Register(c, x) == Shifts(Xor(c, Word(x)), 32)
  {
    hide Xor, Bits, Join, Shift, Shifts;
    var (b1, b2, b3) := (Bits(x[1]), Bits(x[2]), Bits(x[3]));
    BitsSmall(x[1]);
    BitsSmall(x[2]);
    BitsSmall(x[3]);
    Small(b3);
    JoinSmall(b2, b3);
    JoinSmall(b1, Join(b2, b3));
    var w := Xor(c, Word(x));
    RegisterFour(c, x);
    var c1 := Feed(c, x[0]);
    var c2 := Feed(c1, x[1]);
    var c3 := Feed(c2, x[2]);
    FeedAhead(c, x[0], Join(b1, Join(b2, b3)));
    FeedAhead(c1, x[1], Join(b2, b3));
    FeedAhead(c2, x[2], b3);
    ShiftsAdd(w, 8, 8);
    ShiftsAdd(w, 16, 8);
    ShiftsAdd(w, 24, 8);
  }

  lemma Small(b: bv32)
    ensures b <= 0xFF ==> b <= 0xFFFFFF
    ensures b <= 0xFFFF ==> b <= 0xFFFFFF
  {
  }

  lemma RegisterFour(c: bv32, x: Bytes)
    requires |x| == 4
    ensures Register(c, x) == Feed(Feed(Feed(Feed(c, x[0]), x[1]), x[2]), x[3])
  {
    hide Feed;
    assert x[..3][..2] == x[..2] && x[..2][..1] == x[..1] && x[..1][..0] == [];
    assert Register(c, x[..1]) == Feed(c, x[0]);
    assert Register(c, x[..2]) == Feed(Register(c, x[..1]), x[1]);
    assert Register(c, x[..3]) == Feed(Register(c, x[..2]), x[2]);
  }
}
