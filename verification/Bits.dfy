/** Machine words as bit strings, least significant bit first. In this order a right shift by k
    drops the first k bits and little-endian serialisation is plain concatenation. */
module Bits {

  type byte = x: int | 0 <= x < 0x100
  type uint16 = x: int | 0 <= x < 0x1_0000
  type uint32 = x: int | 0 <= x < 0x1_0000_0000
  type uint64 = x: int | 0 <= x < 0x1_0000_0000_0000_0000

  const TWO32: int := 0x1_0000_0000

  /** Modulus of the 64-bit counters. */
  const TWO64: int := 0x1_0000_0000_0000_0000

  function Pow2(n: nat): (r: nat)
    ensures r > 0
  {
    if n == 0 then 1 else 2 * Pow2(n - 1)
  }

  lemma Pow2Widths()
    ensures Pow2(8) == 0x100 && Pow2(16) == 0x1_0000 && Pow2(32) == 0x1_0000_0000
  {
    assert Pow2(8) == 0x100;
    assert Pow2(16) == 0x1_0000;
    assert Pow2(24) == 0x100_0000;
  }

  lemma {:induction false} Pow2Sum(a: nat, b: nat)
    ensures Pow2(a + b) == Pow2(a) * Pow2(b)
  {
    hide Pow2;
    if a > 0 {
      Pow2Sum(a - 1, b);
      Pow2Step(a - 1);
      Pow2Step(a - 1 + b);
      DoubledProduct(Pow2(a - 1), Pow2(b));
    } else {
      Pow2Zero();
    }
  }

  lemma Pow2Zero()
    ensures Pow2(0) == 1
  {}

  lemma Pow2Step(n: nat)
    ensures Pow2(n + 1) == 2 * Pow2(n)
  {}

  lemma DoubledProduct(x: int, y: int)
    ensures 2 * (x * y) == (2 * x) * y
  {}

  /** Quotient and remainder are determined by the remainder's range. */
  lemma ModUnique(a: int, n: int, q: int, r: int)
    requires n > 0 && a == q * n + r && 0 <= r < n
    ensures a % n == r && a / n == q
  {
    var d := a / n - q;
    assert a == (a / n) * n + a % n;
    assert d * n == r - a % n;
    assert d == 0 by {
      assert d >= 1 ==> d * n >= n;
      assert d <= -1 ==> d * n <= -n;
    }
  }

  /** Incrementing a 64-bit register that holds a count. */
  lemma WrappedSuccessor(n: nat)
    ensures (n % TWO64 + 1) % TWO64 == (n + 1) % TWO64
  {}

  lemma SameParity(n: nat)
    ensures (n % TWO64) % 2 == n % 2
  {}

  /** Bit i of n. */
  predicate Bit(n: nat, i: nat)
    decreases i
  {
    if i == 0 then n % 2 == 1 else Bit(n / 2, i - 1)
  }

  function ToBits(n: nat, width: nat): (r: seq<bool>)
    ensures |r| == width && forall i | 0 <= i < width :: r[i] == Bit(n, i)
  {
    seq(width, i requires 0 <= i < width => Bit(n, i))
  }

  function Value(bits: seq<bool>): nat {
    if bits == [] then 0 else (if bits[0] then 1 else 0) + 2 * Value(bits[1..])
  }

  lemma {:induction false} ValueOfBits(n: nat, width: nat)
    requires n < Pow2(width)
    ensures Value(ToBits(n, width)) == n
    decreases width
  {
    if width > 0 {
      assert ToBits(n, width)[1..] == ToBits(n / 2, width - 1);
      ValueOfBits(n / 2, width - 1);
    }
  }

  lemma {:induction false} BitsOfValue(bits: seq<bool>)
    ensures Value(bits) < Pow2(|bits|) && ToBits(Value(bits), |bits|) == bits
  {
    if bits != [] {
      BitsOfValue(bits[1..]);
      assert Value(bits) / 2 == Value(bits[1..]);
      assert ToBits(Value(bits), |bits|) == [bits[0]] + ToBits(Value(bits) / 2, |bits| - 1);
    }
  }

  lemma ToBitsInjective(a: nat, b: nat, width: nat)
    requires a < Pow2(width) && b < Pow2(width) && ToBits(a, width) == ToBits(b, width)
    ensures a == b
  {
    ValueOfBits(a, width);
    ValueOfBits(b, width);
  }

  /** A low part of k bits followed by a high part: concatenation of the two bit strings. */
  lemma {:induction false} ToBitsAppend(lo: nat, hi: nat, k: nat, width: nat)
    requires lo < Pow2(k)
    ensures ToBits(lo + Pow2(k) * hi, k + width) == ToBits(lo, k) + ToBits(hi, width)
    decreases k
  {
    hide Pow2;
    var n := lo + Pow2(k) * hi;
    if k > 0 {
      Pow2Step(k - 1);
      HalvedSum(lo, Pow2(k - 1), hi);
      ToBitsAppend(lo / 2, hi, k - 1, width);
      assert ToBits(n, k + width) == [n % 2 == 1] + ToBits(n / 2, k - 1 + width);
      assert ToBits(lo, k) == [lo % 2 == 1] + ToBits(lo / 2, k - 1);
    } else {
      Pow2Zero();
    }
  }

  lemma HalvedSum(lo: nat, p: nat, hi: nat)
    ensures lo + (2 * p) * hi >= 0
    ensures (lo + (2 * p) * hi) / 2 == lo / 2 + p * hi && (lo + (2 * p) * hi) % 2 == lo % 2
  {
    DoubledProduct(p, hi);
    var x := p * hi;
    assert (lo + 2 * x) / 2 == lo / 2 + x;
  }

  lemma NibbleBits(n: nat)
    ensures ToBits(n, 4) == [n % 2 == 1, n / 2 % 2 == 1, n / 2 / 2 % 2 == 1, n / 2 / 2 / 2 % 2 == 1]
  {
    assert Bit(n, 1) == Bit(n / 2, 0);
    assert Bit(n, 2) == Bit(n / 2, 1) == Bit(n / 2 / 2, 0);
    assert Bit(n, 3) == Bit(n / 2, 2) == Bit(n / 2 / 2, 1) == Bit(n / 2 / 2 / 2, 0);
  }

  lemma ByteFromNibbles(lo: nat, hi: nat)
    requires lo < 16
    ensures ToBits(lo + 16 * hi, 8) == ToBits(lo, 4) + ToBits(hi, 4)
  {
    assert Pow2(4) == 16;
    ToBitsAppend(lo, hi, 4, 4);
  }

  lemma WordFromBytes(a: byte, b: byte, c: byte, d: byte)
    ensures ToBits(a + 0x100 * b + 0x1_0000 * c + 0x100_0000 * d, 32)
            == ToBits(a, 8) + ToBits(b, 8) + ToBits(c, 8) + ToBits(d, 8)
  {
    Pow2Widths();
    ToBitsAppend(c, d, 8, 8);
    ToBitsAppend(b, c + 0x100 * d, 8, 16);
    ToBitsAppend(a, b + 0x100 * (c + 0x100 * d), 8, 24);
  }

  // ------------------------------------------------------------------ little-endian fields

  function Le16(v: uint16): (r: seq<byte>)
    ensures |r| == 2
  {
    [v % 0x100, v / 0x100]
  }

  function Le32(v: uint32): (r: seq<byte>)
    ensures |r| == 4
  {
    [v % 0x100, v / 0x100 % 0x100, v / 0x1_0000 % 0x100, v / 0x100_0000]
  }

  function FromBytes(a: int, b: int, c: int, d: int): int { a + 0x100 * b + 0x1_0000 * c + 0x100_0000 * d }

  function ReadLe32(bytes: seq<byte>, offset: nat): uint32
    requires offset + 4 <= |bytes|
  {
    FromBytes(bytes[offset], bytes[offset + 1], bytes[offset + 2], bytes[offset + 3])
  }

  lemma ReadOfLe32(v: uint32)
    ensures ReadLe32(Le32(v), 0) == v
  {
    var p, q := v / 0x100, v / 0x1_0000;
    assert p / 0x100 == q && q / 0x100 == v / 0x100_0000;
  }

  lemma ReadSlice(bytes: seq<byte>, offset: nat)
    requires offset + 4 <= |bytes|
    ensures ReadLe32(bytes, offset) == ReadLe32(bytes[offset..offset + 4], 0)
  {
    hide FromBytes;
    var w := bytes[offset..offset + 4];
    assert w[0] == bytes[offset] && w[1] == bytes[offset + 1] && w[2] == bytes[offset + 2] && w[3] == bytes[offset + 3];
  }

  /** The same, wherever the four bytes stand. */
  lemma ReadField32(bytes: seq<byte>, offset: nat, v: uint32)
    requires offset + 4 <= |bytes| && bytes[offset..offset + 4] == Le32(v)
    ensures ReadLe32(bytes, offset) == v
  {
    hide Le32;
    hide ReadLe32;
    ReadOfLe32(v);
    ReadSlice(bytes, offset);
  }

  function Le64(v: uint64): (r: seq<byte>)
    ensures |r| == 8
  {
    Le32(v % 0x1_0000_0000) + Le32(v / 0x1_0000_0000)
  }

  function ReadLe64(bytes: seq<byte>, offset: nat): uint64
    requires offset + 8 <= |bytes|
  {
    Joined(ReadLe32(bytes, offset), ReadLe32(bytes, offset + 4))
  }

  function Joined(lo: int, hi: int): int { lo + 0x1_0000_0000 * hi }

  lemma ReadField64(bytes: seq<byte>, offset: nat, v: uint64)
    requires offset + 8 <= |bytes| && bytes[offset..offset + 8] == Le64(v)
    ensures ReadLe64(bytes, offset) == v
  {
    hide Le32;
    hide ReadLe32;
    var w := bytes[offset..offset + 8];
    assert bytes[offset..offset + 4] == w[..4] && bytes[offset + 4..offset + 8] == w[4..];
    ReadField32(bytes, offset, v % 0x1_0000_0000);
    ReadField32(bytes, offset + 4, v / 0x1_0000_0000);
  }

  function ZeroBytes(n: nat): (r: seq<byte>)
    ensures |r| == n && forall i | 0 <= i < n :: r[i] == 0
  {
    seq(n, _ => 0)
  }

  method CopyInto(source: seq<byte>, target: array<byte>)
    requires |source| <= target.Length
    modifies target
    ensures target[..] == source + old(target[..])[|source|..]
  {
    for i := 0 to |source|
      invariant target[..i] == source[..i] && target[i..] == old(target[..])[i..]
    {
      target[i] := source[i];
    }
    assert target[..] == target[..|source|] + target[|source|..];
  }

  // ------------------------------------------------------------------ pointwise exclusive or

  function Zeros(n: nat): (r: seq<bool>)
    ensures |r| == n && forall i | 0 <= i < n :: !r[i]
  {
    seq(n, _ => false)
  }

  function Ones(n: nat): (r: seq<bool>)
    ensures |r| == n && forall i | 0 <= i < n :: r[i]
  {
    seq(n, _ => true)
  }

  function Xor(a: seq<bool>, b: seq<bool>): (r: seq<bool>)
    requires |a| == |b|
    ensures |r| == |a| && forall i | 0 <= i < |a| :: r[i] == (a[i] != b[i])
  {
    seq(|a|, i requires 0 <= i < |a| => a[i] != b[i])
  }
}
