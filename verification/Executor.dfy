/** The deadline loop of cyclic_executor.cpp. Deadlines live on the grid t0 + (n + 1) * period; slot
    n of the grid is either executed or skipped. */
module Executor {
  import opened Bits
  import opened Histogram

  datatype OverrunPolicy = SkipMissed | RunLate

  function Due(t0: int, period: int, slot: int): int { t0 + (slot + 1) * period }

  /** The cycle finished at or after its successor's deadline. */
  predicate Overruns(t0: int, period: int, slot: int, finished: int) { finished >= Due(t0, period, slot + 1) }

  /** The slot after one cycle. Skipping resumes at the first slot due strictly after the finish. */
  function NextSlot(t0: int, period: int, policy: OverrunPolicy, slot: int, finished: int): int
    requires period > 0
  {
    if policy == SkipMissed && Overruns(t0, period, slot, finished) then (finished - t0) / period else slot + 1
  }

  /** The slot of cycle k, given when the earlier cycles finished. */
  function Slot(t0: int, period: int, policy: OverrunPolicy, finishes: seq<int>, k: nat): int
    requires period > 0 && k <= |finishes|
  {
    if k == 0 then 0
    else NextSlot(t0, period, policy, Slot(t0, period, policy, finishes, k - 1), finishes[k - 1])
  }

  function OverrunCount(t0: int, period: int, policy: OverrunPolicy, finishes: seq<int>, k: nat): nat
    requires period > 0 && k <= |finishes|
  {
    if k == 0 then 0
    else OverrunCount(t0, period, policy, finishes, k - 1)
         + (if Overruns(t0, period, Slot(t0, period, policy, finishes, k - 1), finishes[k - 1]) then 1 else 0)
  }

  // ------------------------------------------------------------------ the grid

  lemma GridStep(t0: int, period: int, slot: int)
    ensures Due(t0, period, slot + 1) == Due(t0, period, slot) + period
  {
    assert (slot + 2) * period == (slot + 1) * period + period;
  }

  /** A slot due after `finished` whose predecessor was not is the one the quotient names. */
  lemma FirstSlotAfter(t0: int, period: int, slot: int, finished: int)
    requires period > 0
    ensures slot == (finished - t0) / period <==> Due(t0, period, slot - 1) <= finished < Due(t0, period, slot)
  {
    var q, r := (finished - t0) / period, (finished - t0) % period;
    assert finished - t0 == q * period + r;
    assert (slot + 1) * period == slot * period + period;
    if slot != q {
      var d := slot - q;
      assert d * period == slot * period - q * period;
      assert d >= 1 ==> d * period >= period;
      assert d <= -1 ==> d * period <= -period;
    }
  }

  /** After an overrun under the skipping policy, the next deadline is the least grid point strictly
      after the finish time; otherwise it is the next grid point. Slots never repeat. */
  lemma NextSlotIsLeast(t0: int, period: int, policy: OverrunPolicy, slot: int, finished: int)
    requires period > 0
    ensures var next := NextSlot(t0, period, policy, slot, finished);
            && next > slot
            && (policy == RunLate || !Overruns(t0, period, slot, finished) ==> next == slot + 1)
            && (policy == SkipMissed && Overruns(t0, period, slot, finished) ==>
                  Due(t0, period, next - 1) <= finished < Due(t0, period, next))
  {
    var next := NextSlot(t0, period, policy, slot, finished);
    if policy == SkipMissed && Overruns(t0, period, slot, finished) {
      FirstSlotAfter(t0, period, next, finished);
      assert (next + 1) * period > (slot + 2) * period;
      assert next > slot + 1 by {
        var d := next - slot - 1;
        assert d * period == (next + 1) * period - (slot + 2) * period;
        assert d <= 0 ==> d * period <= 0;
      }
    }
  }

  /** Slots and overruns in plain times. The first slot is 0, due one period after the start. A cycle that
      finishes before its successor is due is followed by that successor; one that does not is an overrun,
      and under the skipping policy is followed by the first slot due after its finish. */
  lemma SlotLaw(t0: int, period: int, policy: OverrunPolicy, finishes: seq<int>, k: nat)
    requires period > 0 && k < |finishes|
    ensures var slot, next := Slot(t0, period, policy, finishes, k), Slot(t0, period, policy, finishes, k + 1);
            var late := finishes[k] >= t0 + (slot + 2) * period;
            && Slot(t0, period, policy, finishes, 0) == 0 && OverrunCount(t0, period, policy, finishes, 0) == 0
            && OverrunCount(t0, period, policy, finishes, k + 1)
               == OverrunCount(t0, period, policy, finishes, k) + (if late then 1 else 0)
            && (if late && policy == SkipMissed
                then next > slot + 1 && t0 + next * period <= finishes[k] < t0 + (next + 1) * period
                else next == slot + 1)
  {
    hide NextSlot;
    var slot := Slot(t0, period, policy, finishes, k);
    NextSlotIsLeast(t0, period, policy, slot, finishes[k]);
    SkipsMore(t0, period, slot, NextSlot(t0, period, policy, slot, finishes[k]), finishes[k]);
  }

  lemma SkipsMore(t0: int, period: int, slot: int, next: int, finished: int)
    requires period > 0 && next > slot
    ensures finished >= t0 + (slot + 2) * period && finished < t0 + (next + 1) * period ==> next > slot + 1
  {}

  lemma {:induction false} SlotsIncrease(t0: int, period: int, policy: OverrunPolicy, finishes: seq<int>, i: nat, k: nat)
    requires period > 0 && i < k <= |finishes|
    ensures Slot(t0, period, policy, finishes, i) < Slot(t0, period, policy, finishes, k)
    decreases k
  {
    hide NextSlot;
    NextSlotIsLeast(t0, period, policy, Slot(t0, period, policy, finishes, k - 1), finishes[k - 1]);
    if i < k - 1 { SlotsIncrease(t0, period, policy, finishes, i, k - 1); }
  }

  // ------------------------------------------------------------------ conservation of slots

  function Executed(t0: int, period: int, policy: OverrunPolicy, finishes: seq<int>, k: nat): set<int>
    requires period > 0 && k <= |finishes|
  {
    if k == 0 then {} else Executed(t0, period, policy, finishes, k - 1) + {Slot(t0, period, policy, finishes, k - 1)}
  }

  function Slots(n: nat): (r: set<int>)
    ensures forall s :: s in r <==> 0 <= s < n
    ensures |r| == n
  {
    if n == 0 then {} else Slots(n - 1) + {n - 1}
  }

  lemma {:induction false} ExecutedBelow(t0: int, period: int, policy: OverrunPolicy, finishes: seq<int>, k: nat)
    requires period > 0 && k <= |finishes|
    ensures Slot(t0, period, policy, finishes, k) >= k
    ensures |Executed(t0, period, policy, finishes, k)| == k
    ensures Executed(t0, period, policy, finishes, k) <= Slots(Slot(t0, period, policy, finishes, k))
  {
    hide NextSlot;
    if k > 0 {
      ExecutedBelow(t0, period, policy, finishes, k - 1);
      SlotsIncrease(t0, period, policy, finishes, k - 1, k);
    }
  }

  /** Each slot before the current one was executed exactly once or skipped: the slots not executed
      number exactly the skipped count, slot - cycles. Running late, nothing is ever skipped. */
  lemma SlotsConserved(t0: int, period: int, policy: OverrunPolicy, finishes: seq<int>, k: nat)
    requires period > 0 && k <= |finishes|
    ensures var slot := Slot(t0, period, policy, finishes, k);
            && slot >= k
            && |Slots(slot) - Executed(t0, period, policy, finishes, k)| == slot - k
            && (policy == RunLate ==> slot == k)
  {
    ExecutedBelow(t0, period, policy, finishes, k);
    if policy == RunLate { NoneSkippedLate(t0, period, finishes, k); }
  }

  lemma {:induction false} NoneSkippedLate(t0: int, period: int, finishes: seq<int>, k: nat)
    requires period > 0 && k <= |finishes|
    ensures Slot(t0, period, RunLate, finishes, k) == k
  {
    if k > 0 { NoneSkippedLate(t0, period, finishes, k - 1); }
  }

  // ------------------------------------------------------------------ the loop

  /** What a histogram is given: the first n differences, clamped. */
  function Latencies(from: seq<int>, to: seq<int>, n: nat): (r: seq<nat>)
    requires n <= |from| && n <= |to|
    ensures |r| == n && forall i | 0 <= i < n :: r[i] == if to[i] >= from[i] then to[i] - from[i] else 0
  {
    seq(n, i requires 0 <= i < n => Latency(from[i], to[i]))
  }

  /** A clock that ran backwards counts as no time. */
  function Latency(from: int, to: int): nat { if to >= from then to - from else 0 }

  lemma LatenciesGrow(from: seq<int>, to: seq<int>, from': seq<int>, to': seq<int>, n: nat)
    requires n < |from| && n < |to| && n <= |from'| && n <= |to'| && from[..n] == from'[..n] && to[..n] == to'[..n]
    ensures Latencies(from, to, n + 1) == Latencies(from', to', n) + [Latency(from[n], to[n])]
  {
    assert forall i | 0 <= i < n :: from[..n][i] == from'[..n][i] && to[..n][i] == to'[..n][i];
  }

  /** With a clock that never runs backwards, nothing of a cycle is lost between the three histograms:
      deadline to return is wake-up delay plus execution, and so are the sums, hence the means. */
  lemma {:induction false} LatenciesAdd(deadlines: seq<int>, wokes: seq<int>, finishes: seq<int>, n: nat)
    requires n <= |deadlines| && n <= |wokes| && n <= |finishes|
    requires forall i | 0 <= i < n :: deadlines[i] <= wokes[i] <= finishes[i]
    ensures Total(Latencies(deadlines, finishes, n)) ==
            Total(Latencies(deadlines, wokes, n)) + Total(Latencies(wokes, finishes, n))
  {
    if n > 0 {
      LatenciesAdd(deadlines, wokes, finishes, n - 1);
      LatenciesGrow(deadlines, finishes, deadlines, finishes, n - 1);
      LatenciesGrow(deadlines, wokes, deadlines, wokes, n - 1);
      LatenciesGrow(wokes, finishes, wokes, finishes, n - 1);
      TotalAppend(Latencies(deadlines, finishes, n - 1), [Latency(deadlines[n - 1], finishes[n - 1])]);
      TotalAppend(Latencies(deadlines, wokes, n - 1), [Latency(deadlines[n - 1], wokes[n - 1])]);
      TotalAppend(Latencies(wokes, finishes, n - 1), [Latency(wokes[n - 1], finishes[n - 1])]);
    }
  }

  /** Cycle i slept until the deadline of its slot. */
  predicate OnGrid(deadlines: seq<int>, t0: int, period: int, policy: OverrunPolicy, finishes: seq<int>) {
    && period > 0 && |deadlines| <= |finishes|
    && forall i | 0 <= i < |deadlines| :: deadlines[i] == Due(t0, period, Slot(t0, period, policy, finishes, i))
  }

  lemma GridExtends(deadlines: seq<int>, deadline: int, t0: int, period: int, policy: OverrunPolicy, finishes: seq<int>)
    requires OnGrid(deadlines, t0, period, policy, finishes) && |deadlines| < |finishes|
    requires deadline == Due(t0, period, Slot(t0, period, policy, finishes, |deadlines|))
    ensures OnGrid(deadlines + [deadline], t0, period, policy, finishes)
  {}

  lemma GridTimes(deadlines: seq<int>, t0: int, period: int, policy: OverrunPolicy, finishes: seq<int>)
    requires OnGrid(deadlines, t0, period, policy, finishes)
    ensures forall i | 0 <= i < |deadlines| :: deadlines[i] == t0 + (Slot(t0, period, policy, finishes, i) + 1) * period
  {
    hide Slot;
  }

  /** n samples more, the i-th being the time from from[i] to to[i], or zero if the clock ran backwards. */
  predicate Appended(past: seq<nat>, samples: seq<nat>, from: seq<int>, to: seq<int>, n: nat)
    requires n <= |from| && n <= |to|
  {
    && |samples| == |past| + n && samples[..|past|] == past
    && forall i | 0 <= i < n :: samples[|past| + i] == if to[i] >= from[i] then to[i] - from[i] else 0
  }

  /** Samples recorded so far. */
  datatype Past = Past(jitter: seq<nat>, execution: seq<nat>, total: seq<nat>)

  class CyclicExecutor {
    const period: int
    const policy: OverrunPolicy
    const wakeupJitter: LatencyHistogram
    const executionTime: LatencyHistogram
    const cycleTotal: LatencyHistogram
    var cyclesExecuted: nat
    var overruns: nat
    var skippedCycles: nat
    var allocationViolations: nat

    ghost function Samples(): Past
      reads wakeupJitter, executionTime, cycleTotal
    {
      Past(wakeupJitter.samples, executionTime.samples, cycleTotal.samples)
    }

    ghost function Parts(): set<object> {
      {wakeupJitter, executionTime, cycleTotal, wakeupJitter.buckets, executionTime.buckets, cycleTotal.buckets}
    }

    ghost predicate Valid()
      reads Parts()
    {
      && wakeupJitter != executionTime && executionTime != cycleTotal && cycleTotal != wakeupJitter
      && wakeupJitter.buckets != executionTime.buckets && executionTime.buckets != cycleTotal.buckets
      && cycleTotal.buckets != wakeupJitter.buckets
      && wakeupJitter.Valid() && executionTime.Valid() && cycleTotal.Valid()
    }

    constructor (period: int, policy: OverrunPolicy)
      ensures this.period == period && this.policy == policy && Valid() && fresh(Parts())
      ensures cyclesExecuted == overruns == skippedCycles == allocationViolations == 0
      ensures wakeupJitter.samples == executionTime.samples == cycleTotal.samples == []
    {
      this.period := period;
      this.policy := policy;
      wakeupJitter := new LatencyHistogram();
      executionTime := new LatencyHistogram();
      cycleTotal := new LatencyHistogram();
      cyclesExecuted, overruns, skippedCycles, allocationViolations := 0, 0, 0, 0;
    }

    /** The histograms hold what they held, and the latencies of n cycles more. */
    ghost predicate Recorded(past: Past, deadlines: seq<int>, wokes: seq<int>, finishes: seq<int>, n: nat)
      requires n <= |deadlines| && n <= |wokes| && n <= |finishes|
      reads wakeupJitter, executionTime, cycleTotal
    {
      && wakeupJitter.samples == past.jitter + Latencies(deadlines, wokes, n)
      && executionTime.samples == past.execution + Latencies(wokes, finishes, n)
      && cycleTotal.samples == past.total + Latencies(deadlines, finishes, n)
    }

    lemma AppendedAll(past: Past, deadlines: seq<int>, wokes: seq<int>, finishes: seq<int>, n: nat)
      requires n <= |deadlines| && n <= |wokes| && n <= |finishes| && Recorded(past, deadlines, wokes, finishes, n)
      ensures Appended(past.jitter, wakeupJitter.samples, deadlines, wokes, n)
      ensures Appended(past.execution, executionTime.samples, wokes, finishes, n)
      ensures Appended(past.total, cycleTotal.samples, deadlines, finishes, n)
    {}

    lemma NothingRecorded(wokes: seq<int>, finishes: seq<int>)
      ensures Recorded(Samples(), [], wokes, finishes, 0)
    {}

    method RecordCycle(deadline: int, woke: int, finished: int, ghost past: Past, ghost deadlines: seq<int>,
                       ghost wokes: seq<int>, ghost finishes: seq<int>)
      requires Valid() && 0 <= deadline && 0 <= woke <= INT64_MAX && finished <= INT64_MAX
      requires var n := |deadlines|;
        n < |wokes| && n < |finishes| && wokes[n] == woke && finishes[n] == finished && Recorded(past, deadlines, wokes, finishes, n)
      modifies Parts()
      ensures Valid() && Recorded(past, deadlines + [deadline], wokes, finishes, |deadlines| + 1)
    {
      hide Counted;
      hide Extremes;
      hide Total;
      hide Latencies;
      wakeupJitter.Record(woke - deadline);
      executionTime.Record(finished - woke);
      cycleTotal.Record(finished - deadline);
      ghost var n, more := |deadlines|, deadlines + [deadline];
      LatenciesGrow(more, wokes, deadlines, wokes, n);
      LatenciesGrow(wokes, finishes, wokes, finishes, n);
      LatenciesGrow(more, finishes, deadlines, finishes, n);
    }

    /** Counts the cycle and moves on to the next scheduled deadline. */
    method Advance(ghost t0: int, ghost slot: int, deadline: int, finished: int) returns (next: int)
      requires period > 0 && deadline == Due(t0, period, slot)
      modifies this`cyclesExecuted, this`overruns, this`skippedCycles
      ensures next == Due(t0, period, NextSlot(t0, period, policy, slot, finished)) > deadline
      ensures cyclesExecuted == old(cyclesExecuted) + 1
      ensures overruns == old(overruns) + (if Overruns(t0, period, slot, finished) then 1 else 0)
      ensures skippedCycles == old(skippedCycles) + NextSlot(t0, period, policy, slot, finished) - slot - 1
    {
      cyclesExecuted := cyclesExecuted + 1;
      GridStep(t0, period, slot);
      next := deadline + period;
      if finished >= next {
        overruns := overruns + 1;
        if policy == SkipMissed {
          next := SkipPast(t0, slot + 1, next, finished);
        }
      }
    }

    /** Runs from clock reading t0. `wokes` and `finishes` are when each sleep and each callback return;
        stop is requested when they are exhausted. `maxCycles` zero means no bound. The allocation guard
        reads `violationsBefore` and `violationsAfter`. Returns the deadlines slept until. */
    method Run(t0: int, wokes: seq<int>, finishes: seq<int>, maxCycles: nat, violationsBefore: nat, violationsAfter: nat)
      returns (deadlines: seq<int>)
      requires Valid() && |wokes| == |finishes| && t0 >= 0
      requires forall i | 0 <= i < |wokes| :: 0 <= wokes[i] <= INT64_MAX && finishes[i] <= INT64_MAX
      modifies this, Parts()
      ensures Valid()
      ensures period <= 0 ==> deadlines == [] && unchanged(this) && forall o | o in Parts() :: unchanged(o)
      ensures period > 0 ==>
                && |deadlines| == (if maxCycles == 0 || |finishes| < maxCycles then |finishes| else maxCycles)
                && (forall i | 0 <= i < |deadlines| :: deadlines[i] == t0 + (Slot(t0, period, policy, finishes, i) + 1) * period)
                && cyclesExecuted == old(cyclesExecuted) + |deadlines|
                && overruns == old(overruns) + OverrunCount(t0, period, policy, finishes, |deadlines|)
                && skippedCycles == old(skippedCycles) + Slot(t0, period, policy, finishes, |deadlines|) - |deadlines|
                && Appended(old(wakeupJitter.samples), wakeupJitter.samples, deadlines, wokes, |deadlines|)
                && Appended(old(executionTime.samples), executionTime.samples, wokes, finishes, |deadlines|)
                && Appended(old(cycleTotal.samples), cycleTotal.samples, deadlines, finishes, |deadlines|)
                && allocationViolations == (violationsAfter - violationsBefore) % TWO64
    {
      hide Slot;
      hide OverrunCount;
      hide OnGrid;
      hide Recorded;
      hide Valid;
      if period <= 0 {
        return [];
      }
      deadlines := RunCycles(t0, wokes, finishes, maxCycles);
      GridTimes(deadlines, t0, period, policy, finishes);
      AppendedAll(old(Samples()), deadlines, wokes, finishes, |deadlines|);
      allocationViolations := (violationsAfter - violationsBefore) % TWO64;
    }

    /** The loop itself. */
    method RunCycles(t0: int, wokes: seq<int>, finishes: seq<int>, maxCycles: nat) returns (deadlines: seq<int>)
      requires Valid() && |wokes| == |finishes| && t0 >= 0 && period > 0
      requires forall i | 0 <= i < |wokes| :: 0 <= wokes[i] <= INT64_MAX && finishes[i] <= INT64_MAX
      modifies this`cyclesExecuted, this`overruns, this`skippedCycles, Parts()
      ensures |deadlines| == (if maxCycles == 0 || |finishes| < maxCycles then |finishes| else maxCycles)
      ensures OnGrid(deadlines, t0, period, policy, finishes)
      ensures cyclesExecuted == old(cyclesExecuted) + |deadlines|
      ensures overruns == old(overruns) + OverrunCount(t0, period, policy, finishes, |deadlines|)
      ensures skippedCycles == old(skippedCycles) + Slot(t0, period, policy, finishes, |deadlines|) - |deadlines|
      ensures Valid() && Recorded(old(Samples()), deadlines, wokes, finishes, |deadlines|)
    {
      hide Slot;
      hide OverrunCount;
      hide NextSlot;
      hide Due;
      hide Overruns;
      hide OnGrid;
      hide Recorded;
      hide Valid;
      deadlines := [];
      NothingRecorded(wokes, finishes);
      ghost var past := Samples();
      var deadline := t0 + period;
      var index := 0;
      StartOfRun(t0, period, policy, finishes);
      while maxCycles == 0 || index < maxCycles
        invariant index == |deadlines| <= |finishes| && (maxCycles == 0 || index <= maxCycles) && deadline >= 0
        invariant Valid() && Recorded(past, deadlines, wokes, finishes, index)
        invariant deadline == Due(t0, period, Slot(t0, period, policy, finishes, index))
        invariant OnGrid(deadlines, t0, period, policy, finishes)
        invariant cyclesExecuted == old(cyclesExecuted) + index
        invariant overruns == old(overruns) + OverrunCount(t0, period, policy, finishes, index)
        invariant skippedCycles == old(skippedCycles) + Slot(t0, period, policy, finishes, index) - index
        decreases |finishes| - index
      {
        if index == |finishes| {
          break;
        }
        RecordCycle(deadline, wokes[index], finishes[index], past, deadlines, wokes, finishes);
        GridExtends(deadlines, deadline, t0, period, policy, finishes);
        deadlines := deadlines + [deadline];
        OneCycle(t0, period, policy, finishes, index);
        deadline := Advance(t0, Slot(t0, period, policy, finishes, index), deadline, finishes[index]);
        index := index + 1;
      }
    }

    /** The inner loop: skip forward to the next deadline still in the future. */
    method SkipPast(ghost t0: int, ghost slot: int, from: int, finished: int) returns (deadline: int)
      requires period > 0 && from == Due(t0, period, slot) <= finished
      modifies this`skippedCycles
      ensures deadline == Due(t0, period, (finished - t0) / period) >= from
      ensures skippedCycles == old(skippedCycles) + (finished - t0) / period - slot
    {
      deadline := from;
      ghost var s := slot;
      while deadline <= finished
        invariant deadline == Due(t0, period, s) && Due(t0, period, s - 1) <= finished
        invariant s >= slot && skippedCycles == old(skippedCycles) + s - slot
        decreases finished - deadline
      {
        GridStep(t0, period, s);
        deadline := deadline + period;
        skippedCycles := skippedCycles + 1;
        s := s + 1;
      }
      FirstSlotAfter(t0, period, s, finished);
    }
  }

  lemma StartOfRun(t0: int, period: int, policy: OverrunPolicy, finishes: seq<int>)
    requires period > 0
    ensures Slot(t0, period, policy, finishes, 0) == 0 && OverrunCount(t0, period, policy, finishes, 0) == 0
    ensures Due(t0, period, 0) == t0 + period && OnGrid([], t0, period, policy, finishes)
  {}

  lemma OneCycle(t0: int, period: int, policy: OverrunPolicy, finishes: seq<int>, k: nat)
    requires period > 0 && k < |finishes|
    ensures var slot := Slot(t0, period, policy, finishes, k);
            && Slot(t0, period, policy, finishes, k + 1) == NextSlot(t0, period, policy, slot, finishes[k])
            && OverrunCount(t0, period, policy, finishes, k + 1)
               == OverrunCount(t0, period, policy, finishes, k) + (if Overruns(t0, period, slot, finishes[k]) then 1 else 0)
  {}
}
