/** The register of crc32.cpp in machine words, expression for expression, for every state; and with it
    the values particular checksums have. */
module CrcValues {
  import opened Bits
  import opened Crc32

  // ------------------------------------------------------------------ machine words as bit strings

  function Mask(i: nat): bv32
    requires i < 32
  {
    if i == 0 then 0x1 else if i == 1 then 0x2 else if i == 2 then 0x4 else if i == 3 then 0x8
    else if i == 4 then 0x10 else if i == 5 then 0x20 else if i == 6 then 0x40 else if i == 7 then 0x80
    else if i == 8 then 0x100 else if i == 9 then 0x200 else if i == 10 then 0x400 else if i == 11 then 0x800
    else if i == 12 then 0x1000 else if i == 13 then 0x2000 else if i == 14 then 0x4000 else if i == 15 then 0x8000
    else if i == 16 then 0x10000 else if i == 17 then 0x20000 else if i == 18 then 0x40000 else if i == 19 then 0x80000
    else if i == 20 then 0x100000 else if i == 21 then 0x200000 else if i == 22 then 0x400000 else if i == 23 then 0x800000
    else if i == 24 then 0x1000000 else if i == 25 then 0x2000000 else if i == 26 then 0x4000000 else if i == 27 then 0x8000000
    else if i == 28 then 0x10000000 else if i == 29 then 0x20000000 else if i == 30 then 0x40000000 else 0x8000_0000
  }

  predicate Has(n: bv32, mask: bv32) { n & mask != 0 }

  function BitsOf(n: bv32): Word { seq(32, i requires 0 <= i < 32 => Has(n, Mask(i))) }

  lemma MaskSingle(i: nat)
    requires i < 32
    ensures Mask(i) & (Mask(i) - 1) == 0
  {}

  predicate Doubles(mask: bv32, next: bv32) { next == mask << 1 && next >> 1 == mask }

  lemma MaskDoubles(i: nat)
    requires i < 31
    ensures Doubles(Mask(i), Mask(i + 1))
  {
    assert Doubles(0x1, 0x2) && Doubles(0x2, 0x4) && Doubles(0x4, 0x8) && Doubles(0x8, 0x10);
    assert Doubles(0x10, 0x20) && Doubles(0x20, 0x40) && Doubles(0x40, 0x80) && Doubles(0x80, 0x100);
    assert Doubles(0x100, 0x200) && Doubles(0x200, 0x400) && Doubles(0x400, 0x800) && Doubles(0x800, 0x1000);
    assert Doubles(0x1000, 0x2000) && Doubles(0x2000, 0x4000) && Doubles(0x4000, 0x8000) && Doubles(0x8000, 0x10000);
    assert Doubles(0x10000, 0x20000) && Doubles(0x20000, 0x40000) && Doubles(0x40000, 0x80000) && Doubles(0x80000, 0x100000);
    assert Doubles(0x100000, 0x200000) && Doubles(0x200000, 0x400000) && Doubles(0x400000, 0x800000) && Doubles(0x800000, 0x1000000);
    assert Doubles(0x1000000, 0x2000000) && Doubles(0x2000000, 0x4000000) && Doubles(0x4000000, 0x8000000) && Doubles(0x8000000, 0x10000000);
    assert Doubles(0x10000000, 0x20000000) && Doubles(0x20000000, 0x40000000) && Doubles(0x40000000, 0x80000000);
  }

  lemma HasXor(a: bv32, b: bv32, mask: bv32)
    requires mask & (mask - 1) == 0
    ensures Has(a ^ b, mask) == (Has(a, mask) != Has(b, mask))
  {}

  lemma HasHalf(n: bv32, mask: bv32, next: bv32)
    requires Doubles(mask, next)
    ensures Has(n >> 1, mask) == Has(n, next)
  {}

  lemma HasTop(n: bv32)
    ensures !Has(n >> 1, 0x8000_0000)
  {}

  lemma XorBits(a: bv32, b: bv32)
    ensures BitsOf(a ^ b) == Xor(BitsOf(a), BitsOf(b))
  {
    hide Has;
    hide Mask;
    forall i: nat | i < 32 ensures BitsOf(a ^ b)[i] == (BitsOf(a)[i] != BitsOf(b)[i]) {
      MaskSingle(i);
      HasXor(a, b, Mask(i));
    }
  }

  lemma HalfBits(n: bv32)
    ensures BitsOf(n >> 1) == BitsOf(n)[1..] + [false] && BitsOf(n)[0] == Has(n, 1)
  {
    hide Has;
    assert Mask(0) == 1 && Mask(31) == 0x8000_0000;
    HasTop(n);
    forall i | 1 <= i < 32 ensures BitsOf(n >> 1)[i - 1] == BitsOf(n)[i] { HalfBit(n, i - 1); }
  }

  lemma HalfBit(n: bv32, i: nat)
    requires i < 31
    ensures Has(n >> 1, Mask(i)) == Has(n, Mask(i + 1))
  {
    hide Has;
    hide Mask;
    hide Doubles;
    MaskDoubles(i);
    HasHalf(n, Mask(i), Mask(i + 1));
  }

  // ------------------------------------------------------------------ hexadecimal digits

  /** Bits 4j to 4j + 3 of the word spell digit d. */
  predicate Digit(n: bv32, j: nat, d: nat)
    requires j < 8
  {
    && Has(n, Mask(4 * j)) == (d % 2 == 1) && Has(n, Mask(4 * j + 1)) == (d / 2 % 2 == 1)
    && Has(n, Mask(4 * j + 2)) == (d / 2 / 2 % 2 == 1) && Has(n, Mask(4 * j + 3)) == (d / 2 / 2 / 2 % 2 == 1)
  }

  /** The hexadecimal digits of the word, lowest first. */
  predicate Digits(n: bv32, d0: nat, d1: nat, d2: nat, d3: nat, d4: nat, d5: nat, d6: nat, d7: nat) {
    && Digit(n, 0, d0) && Digit(n, 1, d1) && Digit(n, 2, d2) && Digit(n, 3, d3)
    && Digit(n, 4, d4) && Digit(n, 5, d5) && Digit(n, 6, d6) && Digit(n, 7, d7)
  }

  function ByteOf(lo: nat, hi: nat): nat { lo + 16 * hi }

  function Number(d0: nat, d1: nat, d2: nat, d3: nat, d4: nat, d5: nat, d6: nat, d7: nat): int {
    FromBytes(ByteOf(d0, d1), ByteOf(d2, d3), ByteOf(d4, d5), ByteOf(d6, d7))
  }

  lemma DigitBits(n: bv32, j: nat, d: nat)
    requires j < 8 && Digit(n, j, d)
    ensures BitsOf(n)[4 * j..4 * j + 4] == ToBits(d, 4)
  {
    hide Has;
    hide Mask;
    NibbleBits(d);
    assert BitsOf(n)[4 * j..4 * j + 4] == [BitsOf(n)[4 * j], BitsOf(n)[4 * j + 1], BitsOf(n)[4 * j + 2], BitsOf(n)[4 * j + 3]];
  }

  lemma ByteBits(n: bv32, j: nat, lo: nat, hi: nat)
    requires j < 4 && lo < 16 && Digit(n, 2 * j, lo) && Digit(n, 2 * j + 1, hi)
    ensures BitsOf(n)[8 * j..8 * j + 8] == ToBits(ByteOf(lo, hi), 8)
  {
    hide Digit;
    hide ToBits;
    hide BitsOf;
    DigitBits(n, 2 * j, lo);
    DigitBits(n, 2 * j + 1, hi);
    ByteFromNibbles(lo, hi);
    var w := BitsOf(n);
    assert w[8 * j..8 * j + 8] == w[8 * j..8 * j + 4] + w[8 * j + 4..8 * j + 8];
  }

  lemma NumberBits(d0: nat, d1: nat, d2: nat, d3: nat, d4: nat, d5: nat, d6: nat, d7: nat)
    requires d0 < 16 && d1 < 16 && d2 < 16 && d3 < 16 && d4 < 16 && d5 < 16 && d6 < 16 && d7 < 16
    ensures 0 <= Number(d0, d1, d2, d3, d4, d5, d6, d7) < 0x1_0000_0000
    ensures ToBits(Number(d0, d1, d2, d3, d4, d5, d6, d7), 32)
            == ToBits(ByteOf(d0, d1), 8) + ToBits(ByteOf(d2, d3), 8) + ToBits(ByteOf(d4, d5), 8) + ToBits(ByteOf(d6, d7), 8)
  {
    hide ToBits;
    WordFromBytes(ByteOf(d0, d1), ByteOf(d2, d3), ByteOf(d4, d5), ByteOf(d6, d7));
  }

  /** A word is the number its digits spell. */
  lemma WordIsNumber(n: bv32, d0: nat, d1: nat, d2: nat, d3: nat, d4: nat, d5: nat, d6: nat, d7: nat)
    requires d0 < 16 && d1 < 16 && d2 < 16 && d3 < 16 && d4 < 16 && d5 < 16 && d6 < 16 && d7 < 16
    requires Digits(n, d0, d1, d2, d3, d4, d5, d6, d7)
    ensures 0 <= Number(d0, d1, d2, d3, d4, d5, d6, d7) < 0x1_0000_0000 && BitsOf(n) == ToBits(Number(d0, d1, d2, d3, d4, d5, d6, d7), 32)
  {
    hide Digit;
    hide ToBits;
    hide BitsOf;
    hide Number;
    hide ByteOf;
    NumberBits(d0, d1, d2, d3, d4, d5, d6, d7);
    ByteBits(n, 0, d0, d1);
    ByteBits(n, 1, d2, d3);
    ByteBits(n, 2, d4, d5);
    ByteBits(n, 3, d6, d7);
    FourBytes(BitsOf(n));
  }

  lemma FourBytes(w: Word)
    ensures w == w[0..8] + w[8..16] + w[16..24] + w[24..32]
  {}

  /** The word holds a byte, given by its two digits. */
  predicate HoldsByte(b: bv32, lo: nat, hi: nat) { Digit(b, 0, lo) && Digit(b, 1, hi) && b & 0xFFFF_FF00 == 0 }

  lemma HighPartClear(b: bv32, i: nat)
    requires 8 <= i < 32 && b & 0xFFFF_FF00 == 0
    ensures !Has(b, Mask(i))
  {
    HighMask(i);
    NoHighBit(b, Mask(i));
  }

  lemma HighMask(i: nat)
    requires 8 <= i < 32
    ensures Mask(i) & 0xFFFF_FF00 == Mask(i)
  {}

  lemma NoHighBit(b: bv32, mask: bv32)
    requires b & 0xFFFF_FF00 == 0 && mask & 0xFFFF_FF00 == mask
    ensures !Has(b, mask)
  {}

  lemma ByteWord(b: bv32, lo: nat, hi: nat)
    requires lo < 16 && HoldsByte(b, lo, hi)
    ensures BitsOf(b) == ToBits(ByteOf(lo, hi), 8) + Zeros(24)
  {
    hide Digit;
    hide ToBits;
    hide Has;
    hide Mask;
    ByteBits(b, 0, lo, hi);
    forall i: nat | 8 <= i < 32 ensures !BitsOf(b)[i] { HighPartClear(b, i); }
    assert BitsOf(b) == BitsOf(b)[0..8] + BitsOf(b)[8..];
  }

  // ------------------------------------------------------------------ the register

  /** One turn of the table initialiser's inner loop. */
  function ShiftWord(n: bv32): bv32 { if Has(n, 1) then (n >> 1) ^ 0xC8DF352F else n >> 1 }

  function Shift8(n: bv32): bv32 {
    ShiftWord(ShiftWord(ShiftWord(ShiftWord(ShiftWord(ShiftWord(ShiftWord(ShiftWord(n))))))))
  }

  lemma PolynomialBits()
    ensures BitsOf(0xC8DF352F) == ToBits(REFLECTED_POLYNOMIAL, 32)
  {
    hide ToBits;
    hide BitsOf;
    hide Digits;
    PolynomialDigits();
    WordIsNumber(0xC8DF352F, 0xF, 0x2, 0x5, 0x3, 0xF, 0xD, 0x8, 0xC);
  }

  lemma PolynomialDigits()
    ensures Digits(0xC8DF352F, 0xF, 0x2, 0x5, 0x3, 0xF, 0xD, 0x8, 0xC)
  {}

  /** The bit-serial step is the source's shift and conditional exclusive or, for every state. */
  lemma ShiftWordBits(n: bv32)
    ensures BitsOf(ShiftWord(n)) == Shift(BitsOf(n))
  {
    hide BitsOf;
    hide Has;
    HalfBits(n);
    XorBits(n >> 1, 0xC8DF352F);
    PolynomialBits();
    assert Xor(BitsOf(n >> 1), Zeros(32)) == BitsOf(n >> 1);
  }

  lemma StepZero(s: Word)
    ensures Step(s, false) == Shift(s)
  {
    assert Xor(s, [false] + Zeros(31)) == s;
  }

  lemma FeedZero(n: bv32, k: nat)
    requires k > 0
    ensures Feed(BitsOf(n), Zeros(k)) == Feed(BitsOf(ShiftWord(n)), Zeros(k - 1))
  {
    hide BitsOf;
    hide Step;
    hide Shift;
    hide ShiftWord;
    assert Zeros(k)[1..] == Zeros(k - 1);
    StepZero(BitsOf(n));
    ShiftWordBits(n);
  }

  lemma FeedZeros(n: bv32)
    ensures Feed(BitsOf(n), Zeros(8)) == BitsOf(Shift8(n))
  {
    hide BitsOf;
    hide Step;
    hide ShiftWord;
    var n1 := ShiftWord(n);
    var n2 := ShiftWord(n1);
    var n3 := ShiftWord(n2);
    var n4 := ShiftWord(n3);
    var n5 := ShiftWord(n4);
    var n6 := ShiftWord(n5);
    var n7 := ShiftWord(n6);
    FeedZero(n, 8);
    FeedZero(n1, 7);
    FeedZero(n2, 6);
    FeedZero(n3, 5);
    FeedZero(n4, 4);
    FeedZero(n5, 3);
    FeedZero(n6, 2);
    FeedZero(n7, 1);
  }

  /** A byte goes in by exclusive or with the low end, then eight shifts. */
  lemma FeedByte(n: bv32, b: bv32, lo: nat, hi: nat)
    requires lo < 16 && hi < 16 && HoldsByte(b, lo, hi)
    ensures Feed(BitsOf(n), ToBits(ByteOf(lo, hi), 8)) == BitsOf(Shift8(n ^ b))
  {
    hide Feed;
    hide ToBits;
    hide Shift8;
    hide BitsOf;
    hide HoldsByte;
    ByteWord(b, lo, hi);
    FeedField(BitsOf(n), ToBits(ByteOf(lo, hi), 8));
    XorBits(n, b);
    FeedZeros(n ^ b);
  }

  /** The byte with these digits takes the register from n to next. */
  predicate Goes(n: bv32, b: bv32, lo: nat, hi: nat, next: bv32) {
    lo < 16 && hi < 16 && HoldsByte(b, lo, hi) && Shift8(n ^ b) == next
  }

  /** Byte k of the data takes the register from n to next. */
  lemma Fed(start: Word, data: seq<byte>, k: nat, n: bv32, b: bv32, lo: nat, hi: nat, next: bv32)
    requires Goes(n, b, lo, hi, next) && k < |data| && data[k] == ByteOf(lo, hi)
    requires Absorb(start, data[..k]) == BitsOf(n)
    ensures Absorb(start, data[..k + 1]) == BitsOf(next)
  {
    hide Feed;
    hide Shift8;
    hide BitsOf;
    hide HoldsByte;
    assert data[..k + 1] == data[..k] + [data[k]];
    AbsorbAppend(start, data[..k], [data[k]]);
    MessageBitsOne(data[k]);
    FeedByte(n, b, lo, hi);
  }

  lemma OnesWord()
    ensures BitsOf(0xFFFF_FFFF) == Ones(32)
  {
    forall i: nat | i < 32 ensures Has(0xFFFF_FFFF, Mask(i)) { MaskNonZero(i); }
  }

  lemma MaskNonZero(i: nat)
    requires i < 32
    ensures Mask(i) != 0
  {}

  /** The register starts with all bits set. */
  lemma Begun()
    ensures BitsOf(0xFFFF_FFFF) == INITIAL
  {
    hide BitsOf;
    OnesWord();
  }

  /** The checksum is the complement of the register. */
  lemma Finished(data: seq<byte>, n: bv32, d0: nat, d1: nat, d2: nat, d3: nat, d4: nat, d5: nat, d6: nat, d7: nat)
    requires d0 < 16 && d1 < 16 && d2 < 16 && d3 < 16 && d4 < 16 && d5 < 16 && d6 < 16 && d7 < 16
    requires Absorb(INITIAL, data) == BitsOf(n) && Digits(n ^ 0xFFFF_FFFF, d0, d1, d2, d3, d4, d5, d6, d7)
    ensures Checksum(data) == Number(d0, d1, d2, d3, d4, d5, d6, d7)
  {
    hide Absorb;
    hide ToBits;
    hide BitsOf;
    hide Digits;
    hide Number;
    WordIsNumber(n ^ 0xFFFF_FFFF, d0, d1, d2, d3, d4, d5, d6, d7);
    XorBits(n, 0xFFFF_FFFF);
    OnesWord();
    Pow2Widths();
    ValueOfBits(Number(d0, d1, d2, d3, d4, d5, d6, d7), 32);
  }

  // ------------------------------------------------------------------ values

  lemma EmptyChecksum()
    ensures Checksum([]) == 0
  {
    hide BitsOf;
    Begun();
    AbsorbNothing(INITIAL);
    Finished([], 0xFFFF_FFFF, 0, 0, 0, 0, 0, 0, 0, 0);
  }

  lemma OnesFed(start: Word, data: seq<byte>)
    requires start == BitsOf(0xFFFF_FFFF) && data == [0xFF, 0xFF, 0xFF, 0xFF]
    ensures Absorb(start, data) == BitsOf(0x0000_0000)
  {
    hide Absorb;
    hide BitsOf;
    hide Goes;
    AbsorbNothing(start);
    OnesFedStepsA();
    Fed(start, data, 0, 0xFFFF_FFFF, 0xFF, 0xF, 0xF, 0x00FF_FFFF);
    Fed(start, data, 1, 0x00FF_FFFF, 0xFF, 0xF, 0xF, 0x0000_FFFF);
    Fed(start, data, 2, 0x0000_FFFF, 0xFF, 0xF, 0xF, 0x0000_00FF);
    OnesFedStepsB();
    Fed(start, data, 3, 0x0000_00FF, 0xFF, 0xF, 0xF, 0x0000_0000);
    assert data[..4] == data;
  }

  lemma OnesFedStepsA()
    ensures Goes(0xFFFF_FFFF, 0xFF, 0xF, 0xF, 0x00FF_FFFF)
    ensures Goes(0x00FF_FFFF, 0xFF, 0xF, 0xF, 0x0000_FFFF)
    ensures Goes(0x0000_FFFF, 0xFF, 0xF, 0xF, 0x0000_00FF)
  {}

  lemma OnesFedStepsB()
    ensures Goes(0x0000_00FF, 0xFF, 0xF, 0xF, 0x0000_0000)
  {}

  lemma OnesEnd()
    ensures Digits(0x0000_0000 ^ 0xFFFF_FFFF, 0xF, 0xF, 0xF, 0xF, 0xF, 0xF, 0xF, 0xF)
  {}

  /** Four bytes of ones empty the register. */
  lemma OnesChecksum(data: seq<byte>)
    requires data == [0xFF, 0xFF, 0xFF, 0xFF]
    ensures Checksum(data) == 0xFFFF_FFFF
  {
    hide Absorb;
    hide BitsOf;
    hide Digits;
    Begun();
    OnesFed(INITIAL, data);
    OnesEnd();
    Finished(data, 0x0000_0000, 0xF, 0xF, 0xF, 0xF, 0xF, 0xF, 0xF, 0xF);
  }

  lemma CheckFed(start: Word, data: seq<byte>)
    requires start == BitsOf(0xFFFF_FFFF) && data == [0x31, 0x32, 0x33, 0x34, 0x35, 0x36, 0x37, 0x38, 0x39]
    ensures Absorb(start, data) == BitsOf(0xE968_2F95)
  {
    hide Absorb;
    hide BitsOf;
    hide Goes;
    AbsorbNothing(start);
    CheckFedStepsA();
    Fed(start, data, 0, 0xFFFF_FFFF, 0x31, 0x1, 0x3, 0xD218_50A1);
    Fed(start, data, 1, 0xD218_50A1, 0x32, 0x2, 0x3, 0xB2AE_168E);
    Fed(start, data, 2, 0xB2AE_168E, 0x33, 0x3, 0x3, 0x521E_C2DD);
    CheckFedStepsB();
    Fed(start, data, 3, 0x521E_C2DD, 0x34, 0x4, 0x3, 0x1776_C98B);
    Fed(start, data, 4, 0x1776_C98B, 0x35, 0x5, 0x3, 0x0334_0A1D);
    Fed(start, data, 5, 0x0334_0A1D, 0x36, 0x6, 0x3, 0x1242_663E);
    CheckFedStepsC();
    Fed(start, data, 6, 0x1242_663E, 0x37, 0x7, 0x3, 0x2501_5864);
    Fed(start, data, 7, 0x2501_5864, 0x38, 0x8, 0x3, 0x503B_AF2D);
    Fed(start, data, 8, 0x503B_AF2D, 0x39, 0x9, 0x3, 0xE968_2F95);
    assert data[..9] == data;
  }

  lemma CheckFedStepsA()
    ensures Goes(0xFFFF_FFFF, 0x31, 0x1, 0x3, 0xD218_50A1)
    ensures Goes(0xD218_50A1, 0x32, 0x2, 0x3, 0xB2AE_168E)
    ensures Goes(0xB2AE_168E, 0x33, 0x3, 0x3, 0x521E_C2DD)
  {}

  lemma CheckFedStepsB()
    ensures Goes(0x521E_C2DD, 0x34, 0x4, 0x3, 0x1776_C98B)
    ensures Goes(0x1776_C98B, 0x35, 0x5, 0x3, 0x0334_0A1D)
    ensures Goes(0x0334_0A1D, 0x36, 0x6, 0x3, 0x1242_663E)
  {}

  lemma CheckFedStepsC()
    ensures Goes(0x1242_663E, 0x37, 0x7, 0x3, 0x2501_5864)
    ensures Goes(0x2501_5864, 0x38, 0x8, 0x3, 0x503B_AF2D)
    ensures Goes(0x503B_AF2D, 0x39, 0x9, 0x3, 0xE968_2F95)
  {}

  lemma CheckEnd()
    ensures Digits(0xE968_2F95 ^ 0xFFFF_FFFF, 0xA, 0x6, 0x0, 0xD, 0x7, 0x9, 0x6, 0x1)
  {}

  /** The published check value: the nine digits "123456789". */
  lemma CheckValue(data: seq<byte>)
    requires data == [0x31, 0x32, 0x33, 0x34, 0x35, 0x36, 0x37, 0x38, 0x39]
    ensures Checksum(data) == 0x1697_D06A
  {
    hide Absorb;
    hide BitsOf;
    hide Digits;
    Begun();
    CheckFed(INITIAL, data);
    CheckEnd();
    Finished(data, 0xE968_2F95, 0xA, 0x6, 0x0, 0xD, 0x7, 0x9, 0x6, 0x1);
  }

  lemma PayloadFed(start: Word, data: seq<byte>)
    requires start == BitsOf(0xFFFF_FFFF) && data == [1, 2, 3, 4, 5, 6, 7, 8]
    ensures Absorb(start, data) == BitsOf(0x1DFC_0549)
  {
    hide Absorb;
    hide BitsOf;
    hide Goes;
    AbsorbNothing(start);
    PayloadFedStepsA();
    Fed(start, data, 0, 0xFFFF_FFFF, 0x01, 0x1, 0x0, 0xAF6C_2C93);
    Fed(start, data, 1, 0xAF6C_2C93, 0x02, 0x2, 0x0, 0xD3D9_7D18);
    Fed(start, data, 2, 0xD3D9_7D18, 0x03, 0x3, 0x0, 0x6FE6_F77B);
    PayloadFedStepsB();
    Fed(start, data, 3, 0x6FE6_F77B, 0x04, 0x4, 0x0, 0x57A6_0F41);
    Fed(start, data, 4, 0x57A6_0F41, 0x05, 0x5, 0x0, 0x6EF3_3663);
    Fed(start, data, 5, 0x6EF3_3663, 0x06, 0x6, 0x0, 0x0817_3B73);
    PayloadFedStepsC();
    Fed(start, data, 6, 0x0817_3B73, 0x07, 0x7, 0x0, 0x13D8_FB65);
    Fed(start, data, 7, 0x13D8_FB65, 0x08, 0x8, 0x0, 0x1DFC_0549);
    assert data[..8] == data;
  }

  lemma PayloadFedStepsA()
    ensures Goes(0xFFFF_FFFF, 0x01, 0x1, 0x0, 0xAF6C_2C93)
    ensures Goes(0xAF6C_2C93, 0x02, 0x2, 0x0, 0xD3D9_7D18)
    ensures Goes(0xD3D9_7D18, 0x03, 0x3, 0x0, 0x6FE6_F77B)
  {}

  lemma PayloadFedStepsB()
    ensures Goes(0x6FE6_F77B, 0x04, 0x4, 0x0, 0x57A6_0F41)
    ensures Goes(0x57A6_0F41, 0x05, 0x5, 0x0, 0x6EF3_3663)
    ensures Goes(0x6EF3_3663, 0x06, 0x6, 0x0, 0x0817_3B73)
  {}

  lemma PayloadFedStepsC()
    ensures Goes(0x0817_3B73, 0x07, 0x7, 0x0, 0x13D8_FB65)
    ensures Goes(0x13D8_FB65, 0x08, 0x8, 0x0, 0x1DFC_0549)
  {}

  lemma HeaderFed(start: Word, data: seq<byte>)
    requires start == BitsOf(0x1DFC_0549) && data == [0, 1, 0, 0, 0]
    ensures Absorb(start, data) == BitsOf(0x41C1_56E3)
  {
    hide Absorb;
    hide BitsOf;
    hide Goes;
    AbsorbNothing(start);
    HeaderFedStepsA();
    Fed(start, data, 0, 0x1DFC_0549, 0x00, 0x0, 0x0, 0x89BE_49BF);
    Fed(start, data, 1, 0x89BE_49BF, 0x01, 0x1, 0x0, 0x03AA_C29D);
    Fed(start, data, 2, 0x03AA_C29D, 0x00, 0x0, 0x0, 0x04F7_91D5);
    HeaderFedStepsB();
    Fed(start, data, 3, 0x04F7_91D5, 0x00, 0x0, 0x0, 0xBDD6_76C9);
    Fed(start, data, 4, 0xBDD6_76C9, 0x00, 0x0, 0x0, 0x41C1_56E3);
    assert data[..5] == data;
  }

  lemma HeaderFedStepsA()
    ensures Goes(0x1DFC_0549, 0x00, 0x0, 0x0, 0x89BE_49BF)
    ensures Goes(0x89BE_49BF, 0x01, 0x1, 0x0, 0x03AA_C29D)
    ensures Goes(0x03AA_C29D, 0x00, 0x0, 0x0, 0x04F7_91D5)
  {}

  lemma HeaderFedStepsB()
    ensures Goes(0x04F7_91D5, 0x00, 0x0, 0x0, 0xBDD6_76C9)
    ensures Goes(0xBDD6_76C9, 0x00, 0x0, 0x0, 0x41C1_56E3)
  {}

  lemma AddressFed(start: Word, data: seq<byte>)
    requires start == BitsOf(0x41C1_56E3) && data == [0x11, 0, 0, 0x22, 0xEF, 0xBE, 0xAD, 0xDE]
    ensures Absorb(start, data) == BitsOf(0xBE62_0E1D)
  {
    hide Absorb;
    hide BitsOf;
    hide Goes;
    AbsorbNothing(start);
    AddressFedStepsA();
    Fed(start, data, 0, 0x41C1_56E3, 0x11, 0x1, 0x1, 0x7850_3819);
    Fed(start, data, 1, 0x7850_3819, 0x00, 0x0, 0x0, 0x0E47_61D4);
    Fed(start, data, 2, 0x0E47_61D4, 0x00, 0x0, 0x0, 0x8D59_C9CC);
    AddressFedStepsB();
    Fed(start, data, 3, 0x8D59_C9CC, 0x22, 0x2, 0x2, 0x8432_A14B);
    Fed(start, data, 4, 0x8432_A14B, 0xEF, 0xF, 0xE, 0x5C17_6F86);
    Fed(start, data, 5, 0x5C17_6F86, 0xBE, 0xE, 0xB, 0x68BE_7EAA);
    AddressFedStepsC();
    Fed(start, data, 6, 0x68BE_7EAA, 0xAD, 0xD, 0xA, 0x93F3_91B5);
    Fed(start, data, 7, 0x93F3_91B5, 0xDE, 0xE, 0xD, 0xBE62_0E1D);
    assert data[..8] == data;
  }

  lemma AddressFedStepsA()
    ensures Goes(0x41C1_56E3, 0x11, 0x1, 0x1, 0x7850_3819)
    ensures Goes(0x7850_3819, 0x00, 0x0, 0x0, 0x0E47_61D4)
    ensures Goes(0x0E47_61D4, 0x00, 0x0, 0x0, 0x8D59_C9CC)
  {}

  lemma AddressFedStepsB()
    ensures Goes(0x8D59_C9CC, 0x22, 0x2, 0x2, 0x8432_A14B)
    ensures Goes(0x8432_A14B, 0xEF, 0xF, 0xE, 0x5C17_6F86)
    ensures Goes(0x5C17_6F86, 0xBE, 0xE, 0xB, 0x68BE_7EAA)
  {}

  lemma AddressFedStepsC()
    ensures Goes(0x68BE_7EAA, 0xAD, 0xD, 0xA, 0x93F3_91B5)
    ensures Goes(0x93F3_91B5, 0xDE, 0xE, 0xD, 0xBE62_0E1D)
  {}

  lemma FrameEnd()
    ensures Digits(0xBE62_0E1D ^ 0xFFFF_FFFF, 0x2, 0xE, 0x1, 0xF, 0xD, 0x9, 0x1, 0x4)
  {}

  /** The checksum of the daemon's first telegram covers payload, then status and number, and then source,
      destination and signature, which do not travel. */
  lemma FrameChecksum(payload: seq<byte>, header: seq<byte>, address: seq<byte>)
    requires payload == [1, 2, 3, 4, 5, 6, 7, 8] && header == [0, 1, 0, 0, 0]
    requires address == [0x11, 0, 0, 0x22, 0xEF, 0xBE, 0xAD, 0xDE]
    ensures Checksum(payload + header + address) == 0x419D_F1E2
  {
    hide Absorb;
    hide BitsOf;
    hide Digits;
    Begun();
    PayloadFed(INITIAL, payload);
    AbsorbAppend(INITIAL, payload, header);
    HeaderFed(BitsOf(0x1DFC_0549), header);
    AbsorbAppend(INITIAL, payload + header, address);
    AddressFed(BitsOf(0x41C1_56E3), address);
    FrameEnd();
    Finished(payload + header + address, 0xBE62_0E1D, 0x2, 0xE, 0x1, 0xF, 0xD, 0x9, 0x1, 0x4);
  }
}
