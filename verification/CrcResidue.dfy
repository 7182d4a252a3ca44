/** The residue of CRC-32/ISO-HDLC: what every message followed by its own checksum leaves. It fixes the
    register's initial value, the final inversion and the order of the checksum's bytes. */
module CrcResidue {
  import opened Machine
  import opened Codec
  import opened Crc32

  predicate LowestBit(c: bv32) {
    c & 1 == 1
  }

  lemma {:induction false} BitOfDigits(c: bv32, n: nat, k: nat)
    requires k < n
    ensures Odd(Digits(c, n), k) <==> LowestBit(Halved(c, k))
    decreases k
  {
    var (b, rest) := (if c & 1 == 1 then 1 else 0, Digits(c >> 1, n - 1));
    HalfOf(Digits(c, n), rest, b);
    if k > 0 { BitOfDigits(c >> 1, n - 1, k - 1); }
  }

  lemma HalfOf(n: nat, h: nat, b: nat)
    requires n == b + 2 * h && b <= 1
    ensures n / 2 == h && (n % 2 == 1 <==> b == 1)
  {
  }

  lemma {:induction false} DigitsOfHalved(c: bv32, n: nat, k: nat)
    requires k <= n
    ensures PowerOfTwo(k) > 0 && Digits(Halved(c, k), n - k) == Digits(c, n) / PowerOfTwo(k)
    decreases k
  {
    PowerPositive(k);
    if k > 0 {
      var (b, rest) := (if c & 1 == 1 then 1 else 0, Digits(c >> 1, n - 1));
      HalfOf(Digits(c, n), rest, b);
      PowerPositive(k - 1);
      DigitsOfHalved(c >> 1, n - 1, k - 1);
      DivideTwice(Digits(c, n), 2, PowerOfTwo(k - 1));
    }
  }

  /** Zeros above a register's bits count nothing. */
  lemma {:induction false} NoMoreDigits(c: bv32, n: nat, m: nat)
    requires n <= m && Halved(c, n) == 0
    ensures Digits(c, m) == Digits(c, n)
    decreases m
  {
    if n > 0 {
      NoMoreDigits(c >> 1, n - 1, m - 1);
    } else if m > 0 {
      ZeroShifted();
      NoMoreDigits(c >> 1, 0, m - 1);
    }
  }

  lemma ZeroShifted()
    ensures (0 as bv32) >> 1 == 0 && (0 as bv32) & 1 == 0
  {
  }

  lemma {:induction false} OddBelow(n: nat, m: nat, k: nat)
    requires k < m
    ensures PowerOfTwo(m) > 0 && Odd(n % PowerOfTwo(m), k) == Odd(n, k)
  {
    var p := PowerOfTwo(m - 1);
    PowerPositive(m - 1);
    ModuloTwice(n, p);
    if k > 0 { OddBelow(n / 2, m - 1, k - 1); }
  }

  lemma {:induction false} PowerPositive(m: nat)
    ensures PowerOfTwo(m) > 0
  {
    if m > 0 { PowerPositive(m - 1); }
  }

  lemma ModuloTwice(n: nat, p: nat)
    requires p > 0
    ensures n % (2 * p) / 2 == n / 2 % p && n % (2 * p) % 2 == n % 2
  {
    var (h, b) := (n / 2, n % 2);
    var (q, r) := (h / p, h % p);
    assert n == 2 * p * q + (2 * r + b);
    QuotientIs(n, 2 * p, q, 2 * r + b);
  }

  lemma PackHalved(c: bv32)
    ensures Pack(LowestBit(Halved(c, 0)), LowestBit(Halved(c, 1)), LowestBit(Halved(c, 2)), LowestBit(Halved(c, 3)),
                 LowestBit(Halved(c, 4)), LowestBit(Halved(c, 5)), LowestBit(Halved(c, 6)), LowestBit(Halved(c, 7))) == Low(c)
    ensures Halved(c, 8) == High(c)
  {
    HalvedIs(c, 0);
    HalvedIs(c, 1);
    HalvedIs(c, 2);
    HalvedIs(c, 3);
    HalvedIs(c, 4);
    HalvedIs(c, 5);
    HalvedIs(c, 6);
    HalvedIs(c, 7);
    HalvedIs(c, 8);
    PackShifted(c);
    hide *;
  }

  lemma PackShifted(c: bv32)
    ensures Pack(LowestBit(Shifted(c, 0)), LowestBit(Shifted(c, 1)), LowestBit(Shifted(c, 2)), LowestBit(Shifted(c, 3)),
                 LowestBit(Shifted(c, 4)), LowestBit(Shifted(c, 5)), LowestBit(Shifted(c, 6)), LowestBit(Shifted(c, 7))) == Low(c)
    ensures Shifted(c, 8) == High(c)
  {
  }

  /** The lowest byte of a register, and what is left above it, in terms of its value. */
  lemma LowByte(c: bv32)
    ensures Bits(Crc32.Value(c) % 256) == Low(c) && Crc32.Value(High(c)) == Crc32.Value(c) / 256
  {
    PackHalved(c);
    hide LowestBit, Halved, Pack, Low, High;
    ByteBits(c, 0);
    ByteBits(c, 1);
    ByteBits(c, 2);
    ByteBits(c, 3);
    ByteBits(c, 4);
    ByteBits(c, 5);
    ByteBits(c, 6);
    ByteBits(c, 7);
    AboveLowByte(c);
    hide Crc32.Value;
  }

  lemma AboveLowByte(c: bv32)
    ensures Crc32.Value(Halved(c, 8)) == Crc32.Value(c) / 256
  {
    PowersOfTwo();
    DigitsOfHalved(c, 32, 8);
    NothingBeyond(c);
    HalvedAgain(c, 8, 24);
    NoMoreDigits(Halved(c, 8), 24, 32);
    hide Halved, Digits;
  }

  lemma ByteBits(c: bv32, k: nat)
    requires k < 8
    ensures Odd(Crc32.Value(c) % 256, k) == LowestBit(Halved(c, k))
  {
    PowersOfTwo();
    hide LowestBit, Halved, Digits;
    OddBelow(Crc32.Value(c), 8, k);
    BitOfDigits(c, 32, k);
  }

  /** The little-endian bytes of a register's value are the word it came from. */
  lemma WordOfValue(c: bv32)
    ensures Word(LittleEndian(Crc32.Value(c), 4)) == c
  {
    var (d, e, f) := (High(c), High(High(c)), High(High(High(c))));
    var x := LittleEndian(Crc32.Value(c), 4);
    JoinedBytes(c);
    LowByte(c);
    LowByte(d);
    LowByte(e);
    LowByte(f);
    hide Bits, Crc32.Value, Low, High, Join, Word;
    FourBytes(Crc32.Value(c));
    WordFrom(x, Low(c), Low(d), Low(e), Low(f));
  }

  lemma FourBytes(n: nat)
    ensures var x := LittleEndian(n, 4); x == [n % 256, n / 256 % 256, n / 256 / 256 % 256, n / 256 / 256 / 256 % 256]
  {
    assert LittleEndian(n / 256 / 256 / 256, 1) == [n / 256 / 256 / 256 % 256];
    assert LittleEndian(n / 256 / 256, 2) == [n / 256 / 256 % 256, n / 256 / 256 / 256 % 256];
    assert LittleEndian(n / 256, 3) == [n / 256 % 256, n / 256 / 256 % 256, n / 256 / 256 / 256 % 256];
  }

  lemma JoinedBytes(c: bv32)
    ensures Join(Low(c), Join(Low(High(c)), Join(Low(High(High(c))), Low(High(High(High(c))))))) == c
  {
  }

  lemma EightMore0()
    ensures Shifts(0xFFFFFFFF, 8) == 0x2DFD1072
  {
    Unrolled(0xFFFFFFFF);
    assert Shift(0xFFFFFFFF) == 0x92477CDF;
    assert Shift(0x92477CDF) == 0xA49B3D4F;
    assert Shift(0xA49B3D4F) == 0xBFF51D87;
    assert Shift(0xBFF51D87) == 0xB2420DE3;
    assert Shift(0xB2420DE3) == 0xB49985D1;
    assert Shift(0xB49985D1) == 0xB7F441C8;
    assert Shift(0xB7F441C8) == 0x5BFA20E4;
    assert Shift(0x5BFA20E4) == 0x2DFD1072;
  }

  lemma EightMore1()
    ensures Shifts(0x2DFD1072, 8) == 0xBE26ED00
  {
    Unrolled(0x2DFD1072);
    assert Shift(0x2DFD1072) == 0x16FE8839;
    assert Shift(0x16FE8839) == 0xE6C7C73C;
    assert Shift(0xE6C7C73C) == 0x7363E39E;
    assert Shift(0x7363E39E) == 0x39B1F1CF;
    assert Shift(0x39B1F1CF) == 0xF1607BC7;
    assert Shift(0xF1607BC7) == 0x9508BEC3;
    assert Shift(0x9508BEC3) == 0xA73CDC41;
    assert Shift(0xA73CDC41) == 0xBE26ED00;
  }

  lemma EightMore2()
    ensures Shifts(0xBE26ED00, 8) == 0x00BE26ED
  {
    Unrolled(0xBE26ED00);
    assert Shift(0xBE26ED00) == 0x5F137680;
    assert Shift(0x5F137680) == 0x2F89BB40;
    assert Shift(0x2F89BB40) == 0x17C4DDA0;
    assert Shift(0x17C4DDA0) == 0x0BE26ED0;
    assert Shift(0x0BE26ED0) == 0x05F13768;
    assert Shift(0x05F13768) == 0x02F89BB4;
    assert Shift(0x02F89BB4) == 0x017C4DDA;
    assert Shift(0x017C4DDA) == 0x00BE26ED;
  }

  lemma EightMore3()
    ensures Shifts(0x00BE26ED, 8) == 0xDEBB20E3
  {
    Unrolled(0x00BE26ED);
    assert Shift(0x00BE26ED) == 0xEDE79056;
    assert Shift(0xEDE79056) == 0x76F3C82B;
    assert Shift(0x76F3C82B) == 0xD6C16735;
    assert Shift(0xD6C16735) == 0x86D830BA;
    assert Shift(0x86D830BA) == 0x436C185D;
    assert Shift(0x436C185D) == 0xCC0E8F0E;
    assert Shift(0xCC0E8F0E) == 0x66074787;
    assert Shift(0x66074787) == 0xDEBB20E3;
  }

  lemma AllOnesFed()
    ensures Shifts(ALL_ONES, 32) == 0xDEBB20E3
  {
    EightMore0();
    EightMore1();
    EightMore2();
    EightMore3();
    hide Shift, Shifts;
    ShiftsAdd(ALL_ONES, 8, 8);
    ShiftsAdd(ALL_ONES, 16, 8);
    ShiftsAdd(ALL_ONES, 24, 8);
  }

  lemma XorBack(r: bv32)
    ensures Xor(r, Xor(r, ALL_ONES)) == ALL_ONES
  {
  }

  /** Reading the four bytes of a word back as a number. */
  lemma ValueOfWord(x: Bytes)
    requires |x| == 4
    ensures Crc32.Value(Word(x)) == Codec.Value(x)
  {
    var c := Word(x);
    var y := LittleEndian(Crc32.Value(c), 4);
    Powers();
    ValueOfLittleEndian(Crc32.Value(c), 4);
    WordOfValue(c);
    hide Word, Crc32.Value, Codec.Value;
    WordInjective(x, y);
  }

  lemma WordInjective(x: Bytes, y: Bytes)
    requires |x| == |y| == 4 && Word(x) == Word(y)
    ensures x == y
  {
    hide Bits, Join;
    BitsSmall(x[0]);
    BitsSmall(x[1]);
    BitsSmall(x[2]);
    BitsSmall(x[3]);
    BitsSmall(y[0]);
    BitsSmall(y[1]);
    BitsSmall(y[2]);
    BitsSmall(y[3]);
    JoinsInjective(Bits(x[0]), Bits(x[1]), Bits(x[2]), Bits(x[3]), Bits(y[0]), Bits(y[1]), Bits(y[2]), Bits(y[3]));
    BitsInjective(x[0], y[0]);
    BitsInjective(x[1], y[1]);
    BitsInjective(x[2], y[2]);
    BitsInjective(x[3], y[3]);
  }

  lemma ResidueWord(x: Bytes)
    requires x == [0x1C, 0xDF, 0x44, 0x21]
    ensures Word(x) == Xor(0xDEBB20E3, ALL_ONES)
  {
    hide Bits, Pack, Word, Join, Xor;
    ResiduePacked();
    BitsOf(x[0], false, false, true, true, true, false, false, false);
    BitsOf(x[1], true, true, true, true, true, false, true, true);
    BitsOf(x[2], false, false, true, false, false, false, true, false);
    BitsOf(x[3], true, false, false, false, false, true, false, false);
    WordFrom(x, 0x1C, 0xDF, 0x44, 0x21);
    ResidueJoined();
  }

  lemma ResiduePacked()
    ensures Pack(false, false, true, true, true, false, false, false) == 0x1C
    ensures Pack(true, true, true, true, true, false, true, true) == 0xDF
    ensures Pack(false, false, true, false, false, false, true, false) == 0x44
    ensures Pack(true, false, false, false, false, true, false, false) == 0x21
  {
  }

  lemma ResidueJoined()
    ensures Join(0x1C, Join(0xDF, Join(0x44, 0x21))) == Xor(0xDEBB20E3, ALL_ONES)
  {
  }

  lemma ResidueValue()
    ensures Crc32.Value(Xor(0xDEBB20E3, ALL_ONES)) == 0x2144DF1C
  {
    var x: Bytes := [0x1C, 0xDF, 0x44, 0x21];
    ResidueWord(x);
    ResidueNumber(x);
    hide Word, Xor, Crc32.Value, Codec.Value;
    ValueOfWord(x);
  }

  lemma ResidueNumber(x: Bytes)
    requires x == [0x1C, 0xDF, 0x44, 0x21]
    ensures Codec.Value(x) == 0x2144DF1C
  {
    assert Codec.Value(x[1..][1..][1..]) == 0x21;
    assert Codec.Value(x[1..][1..]) == 0x2144;
    assert Codec.Value(x[1..]) == 0x2144DF;
  }

  /** Data followed by its own checksum, lowest byte first, always has the same checksum. */
  lemma ResidueIsConstant(data: Bytes)
    ensures Crc(data + LittleEndian(Crc(data), 4)) == 0x2144DF1C
  {
    var r := Register(ALL_ONES, data);
    var c := Xor(r, ALL_ONES);
    var x := LittleEndian(Crc32.Value(c), 4);
    XorBack(r);
    AllOnesFed();
    ResidueValue();
    hide Register, Xor, Crc32.Value, Shifts, Word, LittleEndian;
    RegisterConcat(ALL_ONES, data, x);
    FourAsWord(r, x);
    WordOfValue(c);
  }

  /** No data has checksum 0. */
  lemma CrcOfNothing()
    ensures Crc([]) == 0
  {
    assert Xor(ALL_ONES, ALL_ONES) == 0;
    ZeroDigits(32);
  }

  lemma {:induction false} ZeroDigits(n: nat)
    ensures Digits(0, n) == 0
  {
    ZeroShifted();
    if n > 0 { ZeroDigits(n - 1); }
  }
}
