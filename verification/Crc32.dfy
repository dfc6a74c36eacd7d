/** CRC-32/AUTOSAR (section 7.2.3.2 of the AUTOSAR SWS CRC Library): the table-driven register of
    crc32.cpp, the bit-serial register it stands for, and what the register can tell apart. */
module Crc32 {
  import opened Bits

  type Word = w: seq<bool> | |w| == 32 witness Zeros(32)

  const POLYNOMIAL: uint32 := 0xF4ACFB13
  const REFLECTED_POLYNOMIAL: uint32 := 0xC8DF352F
  /** 0xFFFFFFFF, both the initial register and the final exclusive or. */
  const INITIAL: Word := Ones(32)
  const FINAL_XOR: Word := Ones(32)

  // ------------------------------------------------------------------ the bit-serial register

  function Feedback(carry: bool): Word { if carry then ToBits(REFLECTED_POLYNOMIAL, 32) else Zeros(32) }

  /** One step of the reflected register: shift right, apply the polynomial when a one falls out. */
  function Shift(s: Word): Word { Xor(s[1..] + [false], Feedback(s[0])) }

  /** A message bit enters at the low end, then the register steps. */
  function Step(s: Word, bit: bool): Word { Shift(Xor(s, [bit] + Zeros(31))) }

  /** The bit-serial reference. */
  function Feed(s: Word, bits: seq<bool>): Word
    decreases |bits|
  {
    if bits == [] then s else Feed(Step(s, bits[0]), bits[1..])
  }

  /** The bits of a message in the order they are fed: byte by byte, low bit first. */
  function MessageBits(data: seq<byte>): (r: seq<bool>)
    ensures |r| == 8 * |data|
  {
    if data == [] then [] else ToBits(data[0], 8) + MessageBits(data[1..])
  }

  function Absorb(s: Word, data: seq<byte>): Word { Feed(s, MessageBits(data)) }

  function Finish(s: Word): uint32 {
    BitsOfValue(Xor(s, FINAL_XOR));
    Pow2Widths();
    Value(Xor(s, FINAL_XOR))
  }

  function Checksum(data: seq<byte>): uint32 { Finish(Absorb(INITIAL, data)) }

  // ------------------------------------------------------------------ the register is linear

  lemma ShiftLinear(a: Word, b: Word)
    ensures Shift(Xor(a, b)) == Xor(Shift(a), Shift(b))
  {}

  lemma StepLinear(a: Word, x: bool, b: Word, y: bool)
    ensures Step(Xor(a, b), x != y) == Xor(Step(a, x), Step(b, y))
  {
    var p, q := Xor(a, [x] + Zeros(31)), Xor(b, [y] + Zeros(31));
    assert Xor(Xor(a, b), [x != y] + Zeros(31)) == Xor(p, q);
    ShiftLinear(p, q);
  }

  /** Superposition: the register of a sum of messages is the sum of the registers. */
  lemma {:induction false} Superposition(a: Word, x: seq<bool>, b: Word, y: seq<bool>)
    requires |x| == |y|
    ensures Feed(Xor(a, b), Xor(x, y)) == Xor(Feed(a, x), Feed(b, y))
    decreases |x|
  {
    hide Step;
    if x != [] {
      StepLinear(a, x[0], b, y[0]);
      assert Xor(x, y)[1..] == Xor(x[1..], y[1..]);
      Superposition(Step(a, x[0]), x[1..], Step(b, y[0]), y[1..]);
    }
  }

  lemma {:induction false} FeedAppend(s: Word, x: seq<bool>, y: seq<bool>)
    ensures Feed(s, x + y) == Feed(Feed(s, x), y)
    decreases |x|
  {
    hide Step;
    if x == [] {
      assert x + y == y;
    } else {
      assert (x + y)[1..] == x[1..] + y;
      FeedAppend(Step(s, x[0]), x[1..], y);
    }
  }

  // ------------------------------------------------------------------ the register is reversible

  function Unshift(t: Word): Word { [t[31]] + (if t[31] then Xor(t, Feedback(true)) else t)[..31] }

  function Unstep(t: Word, bit: bool): Word { Xor(Unshift(t), [bit] + Zeros(31)) }

  function Unfeed(t: Word, bits: seq<bool>): Word
    decreases |bits|
  {
    if bits == [] then t else Unstep(Unfeed(t, bits[1..]), bits[0])
  }

  lemma HighTap()
    ensures ToBits(REFLECTED_POLYNOMIAL, 32)[31]
  {
    WordFromBytes(0x2F, 0x35, 0xDF, 0xC8);
    ByteFromNibbles(0x8, 0xC);
    NibbleBits(0xC);
    assert ToBits(REFLECTED_POLYNOMIAL, 32)[31] == ToBits(0xC, 4)[3];
  }

  lemma UnshiftShift(s: Word)
    ensures Unshift(Shift(s)) == s
  {
    HighTap();
    assert Shift(s)[31] == s[0];
  }

  lemma ShiftUnshift(t: Word)
    ensures Shift(Unshift(t)) == t
  {
    HighTap();
    assert Unshift(t)[0] == t[31];
  }

  lemma StepReversible(s: Word, bit: bool)
    ensures Unstep(Step(s, bit), bit) == s && Step(Unstep(s, bit), bit) == s
  {
    var low: Word := [bit] + Zeros(31);
    UnshiftShift(Xor(s, low));
    assert Xor(Xor(s, low), low) == s;
    ShiftUnshift(s);
    assert Xor(Xor(Unshift(s), low), low) == Unshift(s);
  }

  /** For every message the register is transformed by a bijection, with `Unfeed` as the inverse. */
  lemma {:induction false} FeedReversible(s: Word, x: seq<bool>)
    ensures Unfeed(Feed(s, x), x) == s && Feed(Unfeed(s, x), x) == s
    decreases |x|
  {
    hide Step;
    hide Unstep;
    if x != [] {
      FeedReversible(Step(s, x[0]), x[1..]);
      StepReversible(s, x[0]);
      FeedReversible(s, x[1..]);
      StepReversible(Unfeed(s, x[1..]), x[0]);
    }
  }

  // ------------------------------------------------------------------ fields of up to 32 bits

  /** A whole field can be added to the register first and shifted in afterwards. */
  lemma {:induction false} FeedField(s: Word, x: seq<bool>)
    requires |x| <= 32
    ensures Feed(s, x) == Feed(Xor(s, x + Zeros(32 - |x|)), Zeros(|x|))
    decreases |x|
  {
    hide Step;
    var field := x + Zeros(32 - |x|);
    if x == [] {
      assert Xor(s, field) == s;
    } else {
      var rest := x[1..] + Zeros(32 - |x| + 1);
      StepField(s, x[0], field, rest);
      FeedField(Step(s, x[0]), x[1..]);
      assert Zeros(|x|)[1..] == Zeros(|x| - 1);
    }
  }

  lemma StepField(s: Word, bit: bool, field: Word, rest: Word)
    requires field == [bit] + rest[..31] && !rest[31]
    ensures Step(Xor(s, field), false) == Xor(Step(s, bit), rest)
  {
    var p, q := Xor(s, [bit] + Zeros(31)), [false] + rest[..31];
    assert Xor(Xor(s, field), [false] + Zeros(31)) == Xor(p, q);
    ShiftLinear(p, q);
    assert Shift(q) == rest;
  }

  lemma XorCancel(s: seq<bool>, a: seq<bool>, b: seq<bool>)
    requires |s| == |a| == |b| && Xor(s, a) == Xor(s, b)
    ensures a == b
  {
    forall i | 0 <= i < |s| ensures a[i] == b[i] {
      assert Xor(s, a)[i] == Xor(s, b)[i];
    }
  }

  lemma FieldDetermined(s: Word, x: seq<bool>, y: seq<bool>)
    requires |x| == |y| <= 32 && Feed(s, x) == Feed(s, y)
    ensures x == y
  {
    hide Feed;
    hide Unfeed;
    var a, b := x + Zeros(32 - |x|), y + Zeros(32 - |y|);
    FeedField(s, x);
    FeedField(s, y);
    FeedReversible(Xor(s, a), Zeros(|x|));
    FeedReversible(Xor(s, b), Zeros(|x|));
    XorCancel(s, a, b);
    assert x == a[..|x|] && y == b[..|y|];
  }

  /** 32 register steps. */
  function Turn(s: Word): Word { Feed(s, Zeros(32)) }

  function Unturn(t: Word): Word { Unfeed(t, Zeros(32)) }

  /** A field of exactly one word is absorbed by adding it and turning the register once. */
  lemma FeedWord(s: Word, w: Word)
    ensures Feed(s, w) == Turn(Xor(s, w)) && Unturn(Feed(s, w)) == Xor(s, w)
  {
    hide Feed;
    hide Unfeed;
    FeedField(s, w);
    assert w + Zeros(32 - |w|) == w;
    FeedReversible(Xor(s, w), Zeros(32));
  }

  lemma TurnLinear(a: Word, b: Word)
    ensures Turn(Xor(a, b)) == Xor(Turn(a), Turn(b))
  {
    hide Feed;
    assert Xor(Zeros(32), Zeros(32)) == Zeros(32);
    Superposition(a, Zeros(32), b, Zeros(32));
  }

  // ------------------------------------------------------------------ messages

  lemma {:induction false} MessageBitsAppend(x: seq<byte>, y: seq<byte>)
    ensures MessageBits(x + y) == MessageBits(x) + MessageBits(y)
  {
    if x == [] {
      assert x + y == y;
    } else {
      assert (x + y)[1..] == x[1..] + y;
      MessageBitsAppend(x[1..], y);
    }
  }

  lemma AbsorbAppend(s: Word, x: seq<byte>, y: seq<byte>)
    ensures Absorb(s, x + y) == Absorb(Absorb(s, x), y)
  {
    hide Feed;
    hide MessageBits;
    MessageBitsAppend(x, y);
    FeedAppend(s, MessageBits(x), MessageBits(y));
  }

  lemma {:induction false} MessageBitsInjective(x: seq<byte>, y: seq<byte>)
    requires MessageBits(x) == MessageBits(y)
    ensures x == y
  {
    assert |x| == |y|;
    if x != [] {
      var a, b := ToBits(x[0], 8), ToBits(y[0], 8);
      assert MessageBits(x)[..8] == a && MessageBits(y)[..8] == b;
      assert MessageBits(x)[8..] == MessageBits(x[1..]) && MessageBits(y)[8..] == MessageBits(y[1..]);
      Pow2Widths();
      ToBitsInjective(x[0], y[0], 8);
      MessageBitsInjective(x[1..], y[1..]);
    }
  }

  lemma MessageBitsOne(b: byte)
    ensures MessageBits([b]) == ToBits(b, 8)
  {
    assert [b][1..] == [];
  }

  lemma MessageBitsPair(a: byte, b: byte)
    ensures MessageBits([a, b]) == ToBits(a, 8) + ToBits(b, 8)
  {
    hide MessageBits;
    assert [a, b] == [a] + [b];
    MessageBitsAppend([a], [b]);
    MessageBitsOne(a);
    MessageBitsOne(b);
  }

  lemma MessageBitsWord(a: byte, b: byte, c: byte, d: byte)
    ensures MessageBits([a, b, c, d]) == ToBits(FromBytes(a, b, c, d), 32)
  {
    hide MessageBits;
    assert [a, b, c, d] == [a, b] + [c, d];
    MessageBitsAppend([a, b], [c, d]);
    MessageBitsPair(a, b);
    MessageBitsPair(c, d);
    WordFromBytes(a, b, c, d);
  }

  /** Reading a little-endian word off the wire loses nothing. */
  lemma ReadInjective(x: seq<byte>, y: seq<byte>)
    requires |x| == |y| == 4 && ReadLe32(x, 0) == ReadLe32(y, 0)
    ensures x == y
  {
    hide MessageBits;
    assert x == [x[0], x[1], x[2], x[3]] && y == [y[0], y[1], y[2], y[3]];
    MessageBitsWord(x[0], x[1], x[2], x[3]);
    MessageBitsWord(y[0], y[1], y[2], y[3]);
    MessageBitsInjective(x, y);
  }

  lemma FinishInjective(s: Word, t: Word)
    requires Finish(s) == Finish(t)
    ensures s == t
  {
    var a, b := Xor(FINAL_XOR, s), Xor(FINAL_XOR, t);
    assert Xor(s, FINAL_XOR) == a && Xor(t, FINAL_XOR) == b;
    BitsOfValue(a);
    BitsOfValue(b);
    assert |a| == |b| && Value(a) == Value(b);
    XorCancel(FINAL_XOR, s, t);
  }

  // ------------------------------------------------------------------ what the checksum detects

  /** The two bit strings agree outside the window of `width` bits that starts at `at`. */
  predicate DifferOnlyInside(x: seq<bool>, y: seq<bool>, at: nat, width: nat) {
    && |x| == |y| && at + width <= |x|
    && x[..at] == y[..at] && x[at + width..] == y[at + width..]
  }

  lemma FeedOutsideWindow(s: Word, x: seq<bool>, y: seq<bool>, at: nat, width: nat)
    requires DifferOnlyInside(x, y, at, width)
    ensures Feed(s, x) == Feed(s, y) <==>
            Feed(Feed(s, x[..at]), x[at..at + width]) == Feed(Feed(s, x[..at]), y[at..at + width])
  {
    hide Feed;
    hide Unfeed;
    var pre, post := x[..at], x[at + width..];
    var u, v := x[at..at + width], y[at..at + width];
    assert x == pre + (u + post) && y == pre + (v + post);
    FeedAppend(s, pre, u + post);
    FeedAppend(s, pre, v + post);
    FeedAppend(Feed(s, pre), u, post);
    FeedAppend(Feed(s, pre), v, post);
    FeedReversible(Feed(Feed(s, pre), u), post);
    FeedReversible(Feed(Feed(s, pre), v), post);
  }

  lemma SamePieces(a: seq<bool>, b: seq<bool>, at: nat, width: nat)
    requires DifferOnlyInside(a, b, at, width) && a[at..at + width] == b[at..at + width]
    ensures a == b
  {
    assert a == a[..at] + a[at..at + width] + a[at + width..];
    assert b == b[..at] + b[at..at + width] + b[at + width..];
  }

  lemma BurstMovesRegister(s: Word, a: seq<bool>, b: seq<bool>, at: nat, width: nat)
    requires width <= 32 && DifferOnlyInside(a, b, at, width)
    ensures Feed(s, a) == Feed(s, b) <==> a == b
  {
    hide Feed;
    if Feed(s, a) == Feed(s, b) {
      FeedOutsideWindow(s, a, b, at, width);
      FieldDetermined(Feed(s, a[..at]), a[at..at + width], b[at..at + width]);
      SamePieces(a, b, at, width);
    }
  }

  /** Burst detection: messages that differ only inside 32 consecutive bits never share a checksum. */
  lemma BurstDetected(x: seq<byte>, y: seq<byte>, at: nat, width: nat)
    requires width <= 32 && DifferOnlyInside(MessageBits(x), MessageBits(y), at, width)
    ensures Checksum(x) == Checksum(y) <==> x == y
  {
    hide Feed;
    hide MessageBits;
    hide Finish;
    if Checksum(x) == Checksum(y) {
      FinishInjective(Absorb(INITIAL, x), Absorb(INITIAL, y));
      BurstMovesRegister(INITIAL, MessageBits(x), MessageBits(y), at, width);
      MessageBitsInjective(x, y);
    }
  }

  /** ...and 32 is the limit: of the bursts of exactly 33 bits that flip their first bit, the only
      one that goes undetected is the one whose other 32 flips are the polynomial itself. */
  lemma Burst33Undetected(x: seq<byte>, y: seq<byte>, at: nat)
    requires DifferOnlyInside(MessageBits(x), MessageBits(y), at, 33)
    requires MessageBits(x)[at] != MessageBits(y)[at]
    ensures Checksum(x) == Checksum(y) <==>
            Xor(MessageBits(x)[at + 1..at + 33], MessageBits(y)[at + 1..at + 33]) == ToBits(REFLECTED_POLYNOMIAL, 32)
  {
    hide Feed;
    hide MessageBits;
    hide Finish;
    if Checksum(x) == Checksum(y) {
      FinishInjective(Absorb(INITIAL, x), Absorb(INITIAL, y));
    }
    LongBurst(INITIAL, MessageBits(x), MessageBits(y), at);
  }

  lemma LongBurst(s: Word, a: seq<bool>, b: seq<bool>, at: nat)
    requires DifferOnlyInside(a, b, at, 33) && a[at] != b[at]
    ensures Feed(s, a) == Feed(s, b) <==> Xor(a[at + 1..at + 33], b[at + 1..at + 33]) == Feedback(true)
  {
    hide Feed;
    var u, v := a[at + 1..at + 33], b[at + 1..at + 33];
    assert a[at..at + 33] == [a[at]] + u && b[at..at + 33] == [!a[at]] + v;
    FeedOutsideWindow(s, a, b, at, 33);
    FirstFlip(Feed(s, a[..at]), a[at], u, v);
  }

  lemma FirstFlip(s: Word, bit: bool, u: Word, v: Word)
    ensures Feed(s, [bit] + u) == Feed(s, [!bit] + v) <==> Xor(u, v) == Feedback(true)
  {
    hide Step;
    var p, q := Step(s, bit), Step(s, !bit);
    FlipStep(s, bit);
    assert ([bit] + u)[1..] == u && ([!bit] + v)[1..] == v;
    FeedWord(p, u);
    FeedWord(q, v);
    XorMove(p, u, Feedback(true), v);
  }

  lemma FlipStep(s: Word, bit: bool)
    ensures Step(s, !bit) == Xor(Step(s, bit), Feedback(true))
  {
    var p, flip := Xor(s, [bit] + Zeros(31)), [true] + Zeros(31);
    assert Xor(s, [!bit] + Zeros(31)) == Xor(p, flip);
    ShiftLinear(p, flip);
    assert Shift(flip) == Feedback(true);
  }

  lemma XorMove(p: seq<bool>, u: seq<bool>, f: seq<bool>, v: seq<bool>)
    requires |p| == |u| == |f| == |v|
    ensures Xor(p, u) == Xor(Xor(p, f), v) <==> Xor(u, v) == f
  {
    if Xor(p, u) == Xor(Xor(p, f), v) {
      forall i | 0 <= i < |p| ensures Xor(u, v)[i] == f[i] {
        assert Xor(p, u)[i] == Xor(Xor(p, f), v)[i];
      }
    }
    if Xor(u, v) == f {
      forall i | 0 <= i < |p| ensures Xor(p, u)[i] == Xor(Xor(p, f), v)[i] {
        assert Xor(u, v)[i] == f[i];
      }
    }
  }

  // ------------------------------------------------------------------ the published polynomial

  function Mirror(w: Word): Word { seq(32, i requires 0 <= i < 32 => w[31 - i]) }

  /** The textbook register, high bit first: one step of long division by x^32 + 0xF4ACFB13. */
  function DivideStep(t: Word): Word {
    Xor([false] + t[..31], if t[31] then ToBits(POLYNOMIAL, 32) else Zeros(32))
  }

  function Divide(t: Word, bits: seq<bool>): Word
    decreases |bits|
  {
    if bits == [] then t else Divide(DivideStep(Xor(t, Zeros(31) + [bits[0]])), bits[1..])
  }

  lemma PolynomialsMirror()
    ensures Mirror(ToBits(REFLECTED_POLYNOMIAL, 32)) == ToBits(POLYNOMIAL, 32)
  {
    WordFromBytes(0x2F, 0x35, 0xDF, 0xC8);
    WordFromBytes(0x13, 0xFB, 0xAC, 0xF4);
    MirroredByte(0xF, 0x2, 0x4, 0xF);
    MirroredByte(0x5, 0x3, 0xC, 0xA);
    MirroredByte(0xF, 0xD, 0xB, 0xF);
    MirroredByte(0x8, 0xC, 0x3, 0x1);
  }

  predicate Mirrored(a: seq<bool>, b: seq<bool>)
    requires |a| == |b|
  {
    forall i | 0 <= i < |a| :: a[i] == b[|a| - 1 - i]
  }

  predicate MirroredNibble(a: nat, b: nat) {
    && (a % 2 == 1) == (b / 2 / 2 / 2 % 2 == 1) && (a / 2 % 2 == 1) == (b / 2 / 2 % 2 == 1)
    && (a / 2 / 2 % 2 == 1) == (b / 2 % 2 == 1) && (a / 2 / 2 / 2 % 2 == 1) == (b % 2 == 1)
  }

  lemma MirroredNibbleBits(a: nat, b: nat)
    requires MirroredNibble(a, b)
    ensures Mirrored(ToBits(a, 4), ToBits(b, 4))
  {
    NibbleBits(a);
    NibbleBits(b);
  }

  lemma MirroredByte(lo: nat, hi: nat, lo': nat, hi': nat)
    requires lo < 16 && lo' < 16 && MirroredNibble(lo, hi') && MirroredNibble(hi, lo')
    ensures Mirrored(ToBits(lo + 16 * hi, 8), ToBits(lo' + 16 * hi', 8))
  {
    ByteFromNibbles(lo, hi);
    ByteFromNibbles(lo', hi');
    MirroredNibbleBits(lo, hi');
    MirroredNibbleBits(hi, lo');
  }

  /** The reflected register is the mirror image of division by the published polynomial. */
  lemma {:induction false} MirrorsDivision(s: Word, bits: seq<bool>)
    ensures Mirror(Feed(s, bits)) == Divide(Mirror(s), bits)
    decreases |bits|
  {
    if bits != [] {
      var t := Xor(s, [bits[0]] + Zeros(31));
      assert Mirror(t) == Xor(Mirror(s), Zeros(31) + [bits[0]]);
      MirrorStep(t);
      MirrorsDivision(Shift(t), bits[1..]);
    }
  }

  lemma MirrorStep(s: Word)
    ensures Mirror(Shift(s)) == DivideStep(Mirror(s))
  {
    PolynomialsMirror();
    assert Mirror(Zeros(32)) == Zeros(32);
    assert Mirror(s[1..] + [false]) == [false] + Mirror(s)[..31];
    MirrorXor(s[1..] + [false], Feedback(s[0]));
  }

  lemma MirrorXor(a: Word, b: Word)
    ensures Mirror(Xor(a, b)) == Xor(Mirror(a), Mirror(b))
  {}

  // ------------------------------------------------------------------ the table-driven form

  /** Entry i of the table: what byte i leaves in an empty register. */
  function TableEntry(index: byte): Word { Feed(Zeros(32), ToBits(index, 8)) }

  predicate IsTable(table: seq<Word>) { |table| == 256 && forall i: byte :: table[i] == TableEntry(i) }

  function LowByte(s: Word): byte {
    BitsOfValue(s[..8]);
    Pow2Widths();
    Value(s[..8])
  }

  /** A register that starts empty except for its high part just moves down. */
  lemma {:induction false} ShiftOutZeros(hi: seq<bool>, k: nat)
    requires |hi| + k == 32
    ensures Feed(Zeros(k) + hi, Zeros(k)) == hi + Zeros(k)
    decreases k
  {
    if k > 0 {
      assert Step(Zeros(k) + hi, false) == Zeros(k - 1) + (hi + [false]);
      ShiftOutZeros(hi + [false], k - 1);
      assert Zeros(k)[1..] == Zeros(k - 1);
      assert hi + [false] + Zeros(k - 1) == hi + Zeros(k);
    } else {
      assert Zeros(0) + hi == hi == hi + Zeros(0);
    }
  }

  /** Feeding a short field: the untouched high part moves down, the rest starts from empty. */
  lemma FeedLowPart(s: Word, x: seq<bool>)
    requires |x| <= 32
    ensures Feed(s, x) == Xor(s[|x|..] + Zeros(|x|), Feed(Zeros(32), Xor(s[..|x|], x)))
  {
    hide Feed;
    var k := |x|;
    var high: Word, low := Zeros(k) + s[k..], Xor(s[..k], x);
    FeedField(s, x);
    FeedField(Zeros(32), low);
    var rest: Word := Xor(Zeros(32), low + Zeros(32 - k));
    assert Xor(s, x + Zeros(32 - k)) == Xor(high, rest);
    assert Xor(Zeros(k), Zeros(k)) == Zeros(k);
    Superposition(high, Zeros(k), rest, Zeros(k));
    ShiftOutZeros(s[k..], k);
  }

  /** One table lookup does the work of eight bit-serial steps. */
  lemma TableStep(s: Word, b: byte)
    ensures Xor(s[8..] + Zeros(8), TableEntry(LowByte(Xor(s, ToBits(b, 8) + Zeros(24))))) == Feed(s, ToBits(b, 8))
  {
    hide Feed;
    var x := Xor(s, ToBits(b, 8) + Zeros(24));
    BitsOfValue(x[..8]);
    assert x[..8] == Xor(s[..8], ToBits(b, 8));
    FeedLowPart(s, ToBits(b, 8));
  }

  lemma TableEntryIsShift(index: byte)
    ensures TableEntry(index) == Feed(ToBits(index, 32), Zeros(8))
  {
    hide Feed;
    var bits := ToBits(index, 8);
    FeedField(Zeros(32), bits);
    Pow2Widths();
    ToBitsAppend(index, 0, 8, 24);
    forall i: nat ensures !Bit(0, i) { ZeroBit(i); }
    assert Xor(Zeros(32), bits + Zeros(24)) == ToBits(index, 32);
  }

  lemma ZeroBit(i: nat)
    ensures !Bit(0, i)
  {}

  /** The conditional the table initialiser evaluates is one step of the register. */
  function TableLoopStep(r: Word): (t: Word)
    ensures t == Step(r, false)
  {
    assert Xor(r, [false] + Zeros(31)) == r;
    if r[0] then Xor(r[1..] + [false], ToBits(REFLECTED_POLYNOMIAL, 32)) else r[1..] + [false]
  }

  /** The inner loop of the table initialiser: eight steps of the reflected algorithm. */
  method Remainder(index: byte) returns (remainder: Word)
    ensures remainder == TableEntry(index)
  {
    hide Step;
    remainder := ToBits(index, 32);
    var bit := 0;
    TableEntryIsShift(index);
    while bit < 8
      invariant 0 <= bit <= 8
      invariant Feed(remainder, Zeros(8 - bit)) == TableEntry(index)
    {
      assert Zeros(8 - bit)[1..] == Zeros(7 - bit);
      remainder := TableLoopStep(remainder);
      bit := bit + 1;
    }
  }

  /** The lookup table, computed entry by entry. */
  method BuildTable() returns (table: array<Word>)
    ensures fresh(table) && IsTable(table[..])
  {
    hide TableEntry;
    table := new Word[256];
    for index := 0 to 256
      invariant forall i: byte | i < index :: table[i] == TableEntry(i)
    {
      table[index] := Remainder(index);
    }
  }

  class Register {
    const table: seq<Word>
    var state: Word

    ghost predicate Valid() {
      IsTable(table)
    }

    constructor (table: seq<Word>)
      requires IsTable(table)
      ensures Valid() && state == INITIAL
    {
      this.table := table;
      state := INITIAL;
    }

    method UpdateByte(b: byte)
      requires Valid()
      modifies this
      ensures state == Absorb(old(state), [b])
    {
      var index := LowByte(Xor(state, ToBits(b, 8) + Zeros(24)));
      TableStep(state, b);
      state := Xor(state[8..] + Zeros(8), table[index]);
      MessageBitsOne(b);
    }

    method UpdateSpan(data: seq<byte>)
      requires Valid()
      modifies this
      ensures state == Absorb(old(state), data)
    {
      hide Absorb;
      AbsorbNothing(state);
      for i := 0 to |data|
        invariant state == Absorb(old(state), data[..i])
      {
        UpdateByte(data[i]);
        assert data[..i + 1] == data[..i] + [data[i]];
        AbsorbAppend(old(state), data[..i], [data[i]]);
      }
      assert data[..|data|] == data;
    }

    method UpdateUint16(value: uint16)
      requires Valid()
      modifies this
      ensures state == Absorb(old(state), Le16(value))
    {
      hide Absorb;
      var lo, hi := value % 0x100, value / 0x100 % 0x100;
      UpdateByte(lo);
      UpdateByte(hi);
      AbsorbAppend(old(state), [lo], [hi]);
      assert [lo] + [hi] == Le16(value);
    }

    method UpdateUint32(value: uint32)
      requires Valid()
      modifies this
      ensures state == Absorb(old(state), Le32(value))
    {
      hide Absorb;
      var b0, b1, b2, b3 := value % 0x100, value / 0x100 % 0x100, value / 0x1_0000 % 0x100, value / 0x100_0000 % 0x100;
      UpdateByte(b0);
      UpdateByte(b1);
      AbsorbAppend(old(state), [b0], [b1]);
      UpdateByte(b2);
      AbsorbAppend(old(state), [b0] + [b1], [b2]);
      UpdateByte(b3);
      AbsorbAppend(old(state), [b0] + [b1] + [b2], [b3]);
      assert [b0] + [b1] + [b2] + [b3] == Le32(value);
    }

    method Value() returns (crc: uint32)
      ensures crc == Finish(state)
    {
      crc := Finish(state);
    }

    method Reset()
      modifies this
      ensures state == INITIAL
    {
      state := INITIAL;
    }
  }

  lemma AbsorbNothing(s: Word)
    ensures Absorb(s, []) == s
  {}

  method Compute(data: seq<byte>) returns (crc: uint32)
    ensures crc == Checksum(data)
  {
    var table := BuildTable();
    var crc32 := new Register(table[..]);
    crc32.UpdateSpan(data);
    crc := crc32.Value();
  }
}
