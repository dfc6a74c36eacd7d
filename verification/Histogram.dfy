/** The latency histogram of latency_histogram.cpp: bucket arithmetic and percentiles. */
module Histogram {
  import opened Bits

  const SUB_BUCKETS: nat := 32
  const LINEAR_LIMIT: nat := 64
  const BUCKETS: nat := 1920
  const INT64_MAX: int := 0x7FFF_FFFF_FFFF_FFFF

  // ------------------------------------------------------------------ bucket arithmetic

  /** Position of the most significant set bit. */
  function Exponent(value: nat): nat { if value < 2 then 0 else 1 + Exponent(value / 2) }

  function BucketIndex(value: nat): nat {
    if value < LINEAR_LIMIT then value
    else
      ExponentAtLeast(value);
      var shift := Exponent(value) - 5;
      var sub := value / Pow2(shift) % SUB_BUCKETS;
      LINEAR_LIMIT + (shift - 1) * SUB_BUCKETS + sub
  }

  function BucketUpperBound(index: nat): int {
    if index < LINEAR_LIMIT then index
    else
      var offset := index - LINEAR_LIMIT;
      var shift := offset / SUB_BUCKETS + 1;
      var sub := offset % SUB_BUCKETS;
      (SUB_BUCKETS + sub) * Pow2(shift) + Pow2(shift) - 1
  }

  lemma ExponentAtLeast(value: nat)
    requires value >= 64
    ensures Exponent(value) >= 6
  {
    var h := value / 2;
    assert h / 2 / 2 / 2 / 2 >= 2;
    assert Exponent(h) == 1 + Exponent(h / 2) == 2 + Exponent(h / 2 / 2) == 3 + Exponent(h / 2 / 2 / 2)
           == 4 + Exponent(h / 2 / 2 / 2 / 2);
  }

  lemma HalfQuotient(value: nat, p: nat)
    requires p > 0
    ensures value / (2 * p) == value / 2 / p
  {
    var q, r := value / 2 / p, value / 2 % p;
    assert value == 2 * (q * p + r) + value % 2;
    assert value == q * (2 * p) + (2 * r + value % 2);
    ModUnique(value, 2 * p, q, 2 * r + value % 2);
  }

  /** Above the linear region, halving a value moves it down by exactly one octave. */
  lemma IndexHalves(value: nat)
    requires value >= LINEAR_LIMIT
    ensures BucketIndex(value) == SUB_BUCKETS + BucketIndex(value / 2)
  {
    ExponentAtLeast(value);
    var shift := Exponent(value) - 5;
    HalfQuotient(value, Pow2(shift - 1));
    if value < 128 {
      ExponentBelow(value, 7);
      assert Pow2(1) == 2;
    } else {
      ExponentAtLeast(value / 2);
      assert Exponent(value) == 1 + Exponent(value / 2);
    }
  }

  lemma {:induction false} ExponentBelow(value: nat, n: nat)
    requires 0 < n && value < Pow2(n)
    ensures Exponent(value) < n
  {
    if value >= 2 { ExponentBelow(value / 2, n - 1); }
  }

  lemma UpperHalves(index: nat)
    requires index >= LINEAR_LIMIT
    ensures BucketUpperBound(index) == 2 * BucketUpperBound(index - SUB_BUCKETS) + 1
  {
    var offset := index - LINEAR_LIMIT;
    if offset < SUB_BUCKETS {
      assert Pow2(1) == 2;
    } else {
      var shift, sub := offset / SUB_BUCKETS, offset % SUB_BUCKETS;
      assert (offset - SUB_BUCKETS) / SUB_BUCKETS == shift - 1 && (offset - SUB_BUCKETS) % SUB_BUCKETS == sub;
      assert Pow2(shift + 1) == 2 * Pow2(shift);
      assert (SUB_BUCKETS + sub) * (2 * Pow2(shift)) == 2 * ((SUB_BUCKETS + sub) * Pow2(shift));
    }
  }

  /** The bucket map is monotone. */
  lemma {:induction false} IndexMonotone(v: nat, w: nat)
    requires v <= w
    ensures BucketIndex(v) <= BucketIndex(w)
    decreases w
  {
    hide BucketIndex;
    if w >= LINEAR_LIMIT {
      IndexHalves(w);
      if v >= LINEAR_LIMIT {
        IndexHalves(v);
        IndexMonotone(v / 2, w / 2);
      } else {
        IndexMonotone(SUB_BUCKETS, w / 2);
        LinearIndex(v);
        LinearIndex(SUB_BUCKETS);
      }
    } else {
      LinearIndex(v);
      LinearIndex(w);
    }
  }

  lemma LinearIndex(v: nat)
    requires v < LINEAR_LIMIT
    ensures BucketIndex(v) == v && BucketUpperBound(v) == v
  {}

  /** Every 64-bit value has a bucket. */
  lemma {:induction false} IndexInRange(value: nat, octaves: nat)
    requires value < LINEAR_LIMIT * Pow2(octaves)
    ensures BucketIndex(value) < LINEAR_LIMIT + SUB_BUCKETS * octaves
    decreases octaves
  {
    hide BucketIndex;
    if value < LINEAR_LIMIT {
      LinearIndex(value);
    } else {
      IndexHalves(value);
      IndexInRange(value / 2, octaves - 1);
    }
  }

  lemma IndexOfUint64(value: nat)
    requires value < TWO64
    ensures BucketIndex(value) < BUCKETS
  {
    Pow2Wide();
    IndexInRange(value, 58);
  }

  /** The upper bound of a bucket is not below any member, and less than 1/32 above it. */
  lemma {:induction false} UpperIsClose(value: nat)
    ensures value <= BucketUpperBound(BucketIndex(value))
    ensures (BucketUpperBound(BucketIndex(value)) - value) * 32 <= value
    ensures value >= 32 ==> (BucketUpperBound(BucketIndex(value)) - value + 1) * 32 <= value
    decreases value
  {
    hide BucketIndex;
    hide BucketUpperBound;
    if value < LINEAR_LIMIT {
      LinearIndex(value);
    } else {
      IndexHalves(value);
      IndexMonotone(SUB_BUCKETS, value / 2);
      LinearIndex(SUB_BUCKETS);
      UpperHalves(BucketIndex(value));
      UpperIsClose(value / 2);
    }
  }

  lemma {:induction false} UpperInBucket(index: nat)
    ensures BucketUpperBound(index) >= index && BucketIndex(BucketUpperBound(index)) == index
    decreases index
  {
    hide BucketIndex;
    hide BucketUpperBound;
    if index < LINEAR_LIMIT {
      LinearIndex(index);
    } else {
      UpperHalves(index);
      UpperInBucket(index - SUB_BUCKETS);
      var u := BucketUpperBound(index);
      assert u / 2 == BucketUpperBound(index - SUB_BUCKETS);
      IndexHalves(u);
    }
  }

  /** Together: the bound is the largest value of its bucket. */
  lemma UpperIsLargest(value: nat, index: nat)
    ensures BucketIndex(value) == index ==> value <= BucketUpperBound(index)
    ensures BucketUpperBound(index) >= 0 && BucketIndex(BucketUpperBound(index)) == index
    ensures value > BucketUpperBound(index) ==> BucketIndex(value) > index
  {
    hide BucketIndex;
    hide BucketUpperBound;
    UpperIsClose(value);
    UpperInBucket(index);
    if value > BucketUpperBound(index) { IndexMonotone(BucketUpperBound(index), value); }
  }

  // ------------------------------------------------------------------ counting samples

  function CountIf(s: seq<nat>, p: nat -> bool): nat {
    if s == [] then 0 else (if p(s[0]) then 1 else 0) + CountIf(s[1..], p)
  }

  function Below(n: nat): nat -> bool { (v: nat) => BucketIndex(v) < n }

  function In(n: nat): nat -> bool { (v: nat) => BucketIndex(v) == n }

  lemma {:induction false} CountAppend(s: seq<nat>, t: seq<nat>, p: nat -> bool)
    ensures CountIf(s + t, p) == CountIf(s, p) + CountIf(t, p)
  {
    if s == [] {
      assert s + t == t;
    } else {
      assert (s + t)[1..] == s[1..] + t;
      CountAppend(s[1..], t, p);
    }
  }

  lemma {:induction false} CountBounds(s: seq<nat>, p: nat -> bool)
    ensures CountIf(s, p) <= |s|
    ensures (forall v | v in s :: p(v)) ==> CountIf(s, p) == |s|
    ensures (forall v | v in s :: !p(v)) ==> CountIf(s, p) == 0
  {
    if s != [] {
      CountBounds(s[1..], p);
      assert forall v | v in s[1..] :: v in s;
      assert s[0] in s;
    }
  }

  /** A count depends only on the multiset of samples. */
  lemma {:induction false} CountPermutation(s: seq<nat>, t: seq<nat>, p: nat -> bool)
    requires multiset(s) == multiset(t)
    ensures CountIf(s, p) == CountIf(t, p)
  {
    if s == [] {
      assert |multiset(t)| == 0;
    } else {
      assert s[0] in multiset(t);
      var j :| 0 <= j < |t| && t[j] == s[0];
      var u, v := t[..j], t[j + 1..];
      assert t == u + ([t[j]] + v);
      SameRest(s[0], s[1..], u, v) by { assert s == [s[0]] + s[1..]; }
      CountPermutation(s[1..], u + v, p);
      CountAppend(u, [t[j]] + v, p);
      CountAppend(u, v, p);
      assert ([t[j]] + v)[1..] == v;
    }
  }

  lemma SameRest(x: nat, s: seq<nat>, u: seq<nat>, v: seq<nat>)
    requires multiset([x] + s) == multiset(u + ([x] + v))
    ensures multiset(s) == multiset(u + v)
  {
    assert multiset([x] + s) == multiset{x} + multiset(s);
    assert multiset(u + ([x] + v)) == multiset(u) + (multiset{x} + multiset(v));
    assert multiset(s) == multiset([x] + s) - multiset{x};
  }

  lemma {:induction false} CountNextBucket(s: seq<nat>, n: nat)
    ensures CountIf(s, Below(n + 1)) == CountIf(s, Below(n)) + CountIf(s, In(n))
  {
    hide BucketIndex;
    if s != [] { CountNextBucket(s[1..], n); }
  }

  function Total(s: seq<nat>): nat { if s == [] then 0 else s[0] + Total(s[1..]) }

  lemma {:induction false} TotalAppend(s: seq<nat>, t: seq<nat>)
    ensures Total(s + t) == Total(s) + Total(t)
  {
    if s == [] {
      assert s + t == t;
    } else {
      assert (s + t)[1..] == s[1..] + t;
      TotalAppend(s[1..], t);
    }
  }

  lemma {:induction false} TotalRepeated(s: seq<nat>, v: nat)
    requires forall w | w in s :: w == v
    ensures Total(s) == v * |s|
  {
    if s != [] {
      assert s[0] in s && forall w | w in s[1..] :: w in s;
      TotalRepeated(s[1..], v);
      assert v * |s| == v + v * (|s| - 1);
    }
  }

  // ------------------------------------------------------------------ order statistics

  predicate SortedCopy(t: seq<nat>, s: seq<nat>) {
    multiset(t) == multiset(s) && forall i, j | 0 <= i <= j < |t| :: t[i] <= t[j]
  }

  /** The bucket in which the running count first reaches k holds the k-th smallest sample. */
  lemma BucketOfRank(s: seq<nat>, t: seq<nat>, k: nat, n: nat)
    requires SortedCopy(t, s) && 1 <= k <= |t| && CountIf(s, Below(n)) < k <= CountIf(s, Below(n + 1))
    ensures BucketIndex(t[k - 1]) == n
  {
    hide BucketIndex;
    CountPermutation(t, s, Below(n));
    CountPermutation(t, s, Below(n + 1));
    if BucketIndex(t[k - 1]) < n {
      PrefixCounted(t, k, n);
    } else if BucketIndex(t[k - 1]) > n {
      SuffixNotCounted(t, k - 1, n + 1);
    }
  }

  lemma PrefixCounted(t: seq<nat>, k: nat, n: nat)
    requires 1 <= k <= |t| && (forall i, j | 0 <= i <= j < |t| :: t[i] <= t[j]) && BucketIndex(t[k - 1]) < n
    ensures CountIf(t, Below(n)) >= k
  {
    hide BucketIndex;
    forall v | v in t[..k] ensures Below(n)(v) { IndexMonotone(v, t[k - 1]); }
    CountBounds(t[..k], Below(n));
    assert t == t[..k] + t[k..];
    CountAppend(t[..k], t[k..], Below(n));
  }

  lemma SuffixNotCounted(t: seq<nat>, k: nat, n: nat)
    requires k < |t| && (forall i, j | 0 <= i <= j < |t| :: t[i] <= t[j]) && BucketIndex(t[k]) >= n
    ensures CountIf(t, Below(n)) <= k
  {
    hide BucketIndex;
    forall v | v in t[k..] ensures !Below(n)(v) { IndexMonotone(t[k], v); }
    CountBounds(t[k..], Below(n));
    CountBounds(t[..k], Below(n));
    assert t == t[..k] + t[k..];
    CountAppend(t[..k], t[k..], Below(n));
  }

  /** r is a usable report of the k-th smallest sample: never below it, never above the maximum, and
      within 1/32 of it. */
  predicate Reports(r: int, t: seq<nat>, k: nat, max: int)
    requires 1 <= k <= |t|
  {
    t[k - 1] <= r <= max && (r - t[k - 1]) * 32 <= t[k - 1]
  }

  lemma RankReported(s: seq<nat>, t: seq<nat>, k: nat, n: nat, max: nat)
    requires SortedCopy(t, s) && 1 <= k <= |t| && CountIf(s, Below(n)) < k <= CountIf(s, Below(n + 1))
    requires forall v | v in s :: v <= max
    ensures Reports(if BucketUpperBound(n) < max then BucketUpperBound(n) else max, t, k, max)
  {
    hide BucketIndex;
    hide BucketUpperBound;
    BucketOfRank(s, t, k, n);
    UpperIsClose(t[k - 1]);
    assert t[k - 1] in multiset(t);
    assert t[k - 1] in s;
  }

  // ------------------------------------------------------------------ the histogram object

  /** Smallest rank in 1..count that is at least quantile * count, the quantile clamped to 0..1. */
  function Rank(quantile: real, count: nat): (k: nat)
    requires count > 0
    ensures 1 <= k <= count
    ensures (quantile <= 0.0 ==> k == 1) && (quantile >= 1.0 ==> k == count)
    ensures 0.0 <= quantile <= 1.0 ==> quantile * count as real <= k as real && (k > 1 ==> (k - 1) as real < quantile * count as real)
  {
    var q := if quantile < 0.0 then 0.0 else if quantile > 1.0 then 1.0 else quantile;
    var target := -(-(q * count as real)).Floor;
    assert 0.0 <= q * count as real <= count as real by { ScaleBounds(q, count as real); }
    if target < 1 then 1 else if target > count then count else target
  }

  lemma ScaleBounds(q: real, c: real)
    requires 0.0 <= q <= 1.0 && c >= 0.0
    ensures 0.0 <= q * c <= c
  {
    assert (1.0 - q) * c >= 0.0;
  }

  function AsInt64(v: int): int { if v <= INT64_MAX then v else v - TWO64 }

  function Repeated(v: nat, times: nat): (r: seq<nat>)
    ensures |r| == times && (forall w | w in r :: w == v) && forall i | 0 <= i < times :: r[i] == v
  {
    seq(times, _ => v)
  }

  function Product(v: nat, times: nat): real { v as real * times as real }

  /** Each bucket holds the number of samples that fall into it. */
  predicate Counted(b: seq<nat>, samples: seq<nat>) {
    |b| == BUCKETS && forall i | 0 <= i < BUCKETS :: b[i] == CountIf(samples, In(i))
  }

  predicate Extremes(max: int, min: int, samples: seq<nat>) {
    if samples == [] then max == 0 && min == INT64_MAX
    else max in samples && min in samples && forall v | v in samples :: min <= v <= max <= INT64_MAX
  }

  class LatencyHistogram {
    const buckets: array<nat>
    var count: nat
    var sum: real
    var max: int
    var min: int
    /** Everything recorded, clamped. */
    ghost var samples: seq<nat>

    ghost predicate Valid()
      reads this, buckets
    {
      && count == |samples| && sum == Total(samples) as real
      && Counted(buckets[..], samples) && Extremes(max, min, samples)
    }

    constructor ()
      ensures Valid() && samples == [] && fresh(buckets)
    {
      buckets := new nat[BUCKETS](_ => 0);
      count, sum, max, min, samples := 0, 0.0, 0, INT64_MAX, [];
    }

    method Record(value: int)
      requires Valid() && value <= INT64_MAX
      modifies this, buckets
      ensures Valid() && samples == old(samples) + [if value < 0 then 0 else value]
    {
      hide Counted;
      hide Extremes;
      hide Total;
      RecordMany(value, 1);
      assert seq(1, _ => value) == [value] && seq(1, _ => 0) == [0];
    }

    method RecordMany(value: int, times: nat)
      requires Valid() && value <= INT64_MAX
      modifies this, buckets
      ensures Valid()
      ensures value >= 0 ==> samples == old(samples) + seq(times, _ => value)
      ensures value < 0 ==> samples == old(samples) + seq(times, _ => 0)
    {
      hide BucketIndex;
      hide Counted;
      hide Extremes;
      hide Total;
      hide Product;
      hide Repeated;
      var clamped: nat := if value < 0 then 0 else value;
      ghost var added := Repeated(clamped, times);
      assert added == seq(times, _ => clamped);
      if times == 0 {
        assert samples + added == samples;
        return;
      }
      IndexOfUint64(clamped);
      CountedMore(buckets[..], samples, added, clamped);
      RepeatedTotal(samples, added, clamped);
      ExtremesMore(max, min, samples, added, clamped);
      var index := BucketIndex(clamped);
      buckets[index] := buckets[index] + times;
      count := count + times;
      sum := sum + Product(clamped, times);
      max := if clamped > max then clamped else max;
      min := if clamped < min then clamped else min;
      samples := samples + added;
    }

    /** Folding in another histogram, possibly this one, equals recording its samples as well. */
    method Merge(other: LatencyHistogram)
      requires Valid() && other.Valid() && (other != this ==> other.buckets != buckets)
      modifies this, buckets
      ensures Valid() && samples == old(samples) + old(other.samples)
      ensures other != this ==> other.Valid() && unchanged(other) && unchanged(other.buckets)
    {
      hide Counted;
      hide Extremes;
      hide Total;
      if other.count == 0 {
        assert samples + other.samples == samples;
        return;
      }
      ghost var mine, theirs := samples, other.samples;
      ghost var b, c := buckets[..], other.buckets[..];
      CountedBoth(b, c, mine, theirs);
      var i := 0;
      while i < BUCKETS
        invariant 0 <= i <= BUCKETS && |b| == |c| == buckets.Length == other.buckets.Length == BUCKETS
        invariant forall j | 0 <= j < i :: buckets[j] == b[j] + c[j]
        invariant forall j | i <= j < BUCKETS :: buckets[j] == b[j] && other.buckets[j] == c[j]
        invariant other != this ==> unchanged(other.buckets)
        modifies buckets
      {
        buckets[i] := buckets[i] + other.buckets[i];
        i := i + 1;
      }
      assert buckets[..] == seq(BUCKETS, j requires 0 <= j < BUCKETS => b[j] + c[j]);
      TotalAppend(mine, theirs);
      ExtremesBoth(max, min, mine, other.max, other.min, theirs);
      count := count + other.count;
      sum := sum + other.sum;
      max := if other.max > max then other.max else max;
      min := if other.min < min then other.min else min;
      samples := mine + theirs;
    }

    /** The exact average of everything recorded. */
    method Mean() returns (r: real)
      requires Valid()
      ensures count == 0 ==> r == 0.0
      ensures count > 0 ==> r * count as real == Total(samples) as real
    {
      return if count == 0 then 0.0 else sum / count as real;
    }

    /** The reported percentile bounds the true order statistic. */
    method Percentile(quantile: real) returns (r: int)
      requires Valid()
      ensures count == 0 ==> r == 0
      ensures count > 0 ==> forall t | SortedCopy(t, samples) :: |t| == count && Reports(r, t, Rank(quantile, count), max)
    {
      hide BucketIndex;
      hide BucketUpperBound;
      if count == 0 {
        return 0;
      }
      var target := Rank(quantile, count);
      var seen, i := 0, 0;
      NothingBelowZero(samples);
      while i < BUCKETS
        invariant 0 <= i <= BUCKETS && seen == CountIf(samples, Below(i)) < target
      {
        seen := seen + buckets[i];
        CountNextBucket(samples, i);
        if seen >= target {
          SignedUpper(samples, i, target);
          var bound := AsInt64(BucketUpperBound(i));
          r := if bound < max then bound else max;
          forall t | SortedCopy(t, samples)
            ensures |t| == count && Reports(r, t, target, max)
          {
            assert |t| == |multiset(t)|;
            RankReported(samples, t, target, i, max);
          }
          return;
        }
        i := i + 1;
      }
      EverythingBelow(samples);
      assert false;
      return max;
    }
  }

  lemma RepeatedCounts(s: seq<nat>, added: seq<nat>, v: nat)
    requires forall w | w in added :: w == v
    ensures forall i: nat :: CountIf(s + added, In(i)) == CountIf(s, In(i)) + (if i == BucketIndex(v) then |added| else 0)
  {
    hide BucketIndex;
    forall i: nat
      ensures CountIf(s + added, In(i)) == CountIf(s, In(i)) + (if i == BucketIndex(v) then |added| else 0)
    {
      CountAppend(s, added, In(i));
      CountBounds(added, In(i));
    }
  }

  lemma CountedMore(b: seq<nat>, s: seq<nat>, added: seq<nat>, v: nat)
    requires Counted(b, s) && BucketIndex(v) < BUCKETS && forall w | w in added :: w == v
    ensures |b| == BUCKETS && Counted(b[BucketIndex(v) := b[BucketIndex(v)] + |added|], s + added)
  {
    hide BucketIndex;
    hide CountIf;
    RepeatedCounts(s, added, v);
  }

  lemma CountedBoth(b: seq<nat>, c: seq<nat>, s: seq<nat>, t: seq<nat>)
    requires Counted(b, s) && Counted(c, t)
    ensures |b| == |c| == BUCKETS && Counted(seq(BUCKETS, j requires 0 <= j < BUCKETS => b[j] + c[j]), s + t)
  {
    hide BucketIndex;
    hide CountIf;
    forall j: nat | j < BUCKETS ensures CountIf(s + t, In(j)) == CountIf(s, In(j)) + CountIf(t, In(j)) {
      CountAppend(s, t, In(j));
    }
  }

  lemma ExtremesMore(max: int, min: int, s: seq<nat>, added: seq<nat>, v: nat)
    requires Extremes(max, min, s) && added != [] && v <= INT64_MAX && forall w | w in added :: w == v
    ensures Extremes(if v > max then v else max, if v < min then v else min, s + added)
  {
    assert added[0] in added;
    ExtremesBoth(max, min, s, v, v, added);
  }

  lemma ExtremesBoth(max: int, min: int, s: seq<nat>, max': int, min': int, t: seq<nat>)
    requires Extremes(max, min, s) && Extremes(max', min', t)
    ensures Extremes(if max' > max then max' else max, if min' < min then min' else min, s + t)
  {
    assert s + t == [] <==> s == [] && t == [];
    assert forall v :: v in s + t <==> v in s || v in t;
    assert t == [] ==> s + t == s;
  }

  lemma RepeatedTotal(s: seq<nat>, added: seq<nat>, v: nat)
    requires forall w | w in added :: w == v
    ensures Total(s + added) as real == Total(s) as real + Product(v, |added|)
  {
    hide Total;
    hide Product;
    TotalAppend(s, added);
    TotalRepeated(added, v);
    RealProduct(v, |added|);
  }

  lemma RealProduct(v: nat, times: nat)
    ensures (v * times) as real == Product(v, times)
  {}

  lemma NothingBelowZero(s: seq<nat>)
    ensures CountIf(s, Below(0)) == 0
  {
    hide BucketIndex;
    CountBounds(s, Below(0));
  }

  lemma EverythingBelow(s: seq<nat>)
    requires forall v | v in s :: v <= INT64_MAX
    ensures CountIf(s, Below(BUCKETS)) == |s|
  {
    hide BucketIndex;
    forall v | v in s ensures Below(BUCKETS)(v) { IndexOfUint64(v); }
    CountBounds(s, Below(BUCKETS));
  }

  /** The bound of a bucket that holds a sample survives the conversion to a signed 64-bit value. */
  lemma SignedUpper(s: seq<nat>, n: nat, k: nat)
    requires (forall v | v in s :: v <= INT64_MAX) && CountIf(s, Below(n)) < k <= CountIf(s, Below(n + 1))
    ensures AsInt64(BucketUpperBound(n)) == BucketUpperBound(n)
  {
    hide BucketIndex;
    hide BucketUpperBound;
    CountNextBucket(s, n);
    CountBounds(s, In(n));
    var v :| v in s && In(n)(v);
    IndexMonotone(v, INT64_MAX);
    UpperIsLargest(v, n);
    TopSignedBucket();
    UpperIsLargest(BucketUpperBound(n), BucketIndex(INT64_MAX));
  }

  /** A value whose bits are all ones closes its bucket. */
  lemma {:induction false} OnesCloseBucket(k: nat)
    requires k >= 6
    ensures BucketUpperBound(BucketIndex(Pow2(k) - 1)) == Pow2(k) - 1
  {
    hide BucketIndex;
    hide BucketUpperBound;
    assert Pow2(6) == 64;
    if k == 6 {
      LinearIndex(63);
    } else {
      OnesCloseBucket(k - 1);
      var v := Pow2(k) - 1;
      assert Pow2(k - 1) >= 64 by { Pow2Sum(k - 7, 6); }
      assert v / 2 == Pow2(k - 1) - 1;
      IndexHalves(v);
      IndexMonotone(SUB_BUCKETS, v / 2);
      LinearIndex(SUB_BUCKETS);
      UpperHalves(BucketIndex(v));
    }
  }

  lemma TopSignedBucket()
    ensures BucketUpperBound(BucketIndex(INT64_MAX)) == INT64_MAX
  {
    hide BucketIndex;
    hide BucketUpperBound;
    Pow2Wide();
    OnesCloseBucket(63);
  }

  lemma Pow2Wide()
    ensures Pow2(58) == 0x400_0000_0000_0000 && Pow2(63) == INT64_MAX + 1
  {
    Pow2Widths();
    Pow2Sum(8, 32);
    Pow2Sum(16, 40);
    assert Pow2(58) == 4 * Pow2(56) && Pow2(63) == 32 * Pow2(58);
  }
}
