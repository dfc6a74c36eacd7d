/** The control loop on its executor. The loop hands its receiver and supervisor the time period * index;
    the executor skips the slots a stalled cycle has missed without advancing the index. So a stall is
    invisible to both. */
module Cadence {
  import opened Bits
  import opened Daemon
  import opened Executor

  /** When cycle k is really due, counted from the first deadline. */
  function RealTime(t0: int, period: int, finishes: seq<int>, k: nat): int
    requires period > 0 && k <= |finishes|
  {
    Due(t0, period, Slot(t0, period, SkipMissed, finishes, k)) - Due(t0, period, 0)
  }

  function RealTimes(t0: int, period: int, finishes: seq<int>): (r: seq<int>)
    requires period > 0
    ensures |r| == |finishes| + 1 && forall k | 0 <= k <= |finishes| :: r[k] == RealTime(t0, period, finishes, k)
  {
    seq(|finishes| + 1, k requires 0 <= k <= |finishes| => RealTime(t0, period, finishes, k))
  }

  /** The loop's own time falls behind by one period for every slot skipped, and never catches up. */
  lemma TimeFallsBehind(t0: int, period: int, finishes: seq<int>, k: nat)
    requires period > 0 && k <= |finishes|
    ensures var skipped := Slot(t0, period, SkipMissed, finishes, k) - k;
      && skipped >= 0 && RealTime(t0, period, finishes, k) == period * k + period * skipped
      && (k > 0 ==> skipped >= Slot(t0, period, SkipMissed, finishes, k - 1) - (k - 1))
  {
    hide Slot;
    hide Due;
    hide Executed;
    hide Slots;
    var slot := Slot(t0, period, SkipMissed, finishes, k);
    SlotsConserved(t0, period, SkipMissed, finishes, k);
    DueApart(t0, period, 0, slot);
    Distributes(period, k, slot - k);
    if k > 0 { SlotsIncrease(t0, period, SkipMissed, finishes, k - 1, k); }
  }

  lemma Distributes(x: int, y: int, z: int)
    ensures x * (y + z) == x * y + x * z
  {}

  lemma DueApart(t0: int, period: int, a: int, b: int)
    ensures Due(t0, period, b) - Due(t0, period, a) == period * (b - a)
  {
    assert (b + 1) * period - (a + 1) * period == period * (b - a);
  }

  lemma DueOrdered(t0: int, period: int, a: int, b: int)
    requires period > 0
    ensures a <= b <==> Due(t0, period, a) <= Due(t0, period, b)
  {
    hide Due;
    DueApart(t0, period, a, b);
    var d := b - a;
    assert d >= 0 ==> period * d >= 0;
    assert d <= -1 ==> period * d <= -period;
  }

  lemma QuotientBounds(period: int, limit: int, g: int)
    requires period > 0
    ensures period * g <= limit <==> g <= limit / period
  {
    var m := limit / period;
    assert limit == m * period + limit % period;
    var d := g - m;
    assert period * g == period * m + period * d;
    assert d <= 0 ==> period * d <= 0;
    assert d >= 1 ==> period * d >= period;
  }

  /** Cycle j finishes before the watchdog, started at its own deadline, would run out at a grid point. */
  predicate ShortStall(t0: int, period: int, finishes: seq<int>, j: nat)
    requires period > 0 && j < |finishes|
  {
    finishes[j] < Due(t0, period, Slot(t0, period, SkipMissed, finishes, j) + WATCHDOG / period)
  }

  /** Exactly when the next cycle is really due within the watchdog. */
  lemma ShortStallInTime(t0: int, period: int, finishes: seq<int>, j: nat)
    requires 0 < period <= WATCHDOG && j < |finishes|
    ensures RealTime(t0, period, finishes, j + 1) - RealTime(t0, period, finishes, j) <= WATCHDOG <==>
            ShortStall(t0, period, finishes, j)
  {
    hide Due;
    hide NextSlot;
    OneCycle(t0, period, SkipMissed, finishes, j);
    hide Slot;
    var slot := Slot(t0, period, SkipMissed, finishes, j);
    var next := Slot(t0, period, SkipMissed, finishes, j + 1);
    var m := WATCHDOG / period;
    NextSlotIsLeast(t0, period, SkipMissed, slot, finishes[j]);
    DueApart(t0, period, slot, next);
    QuotientBounds(period, WATCHDOG, next - slot);
    QuotientBounds(period, WATCHDOG, 1);
    DueOrdered(t0, period, slot + 1, slot + m);
    DueOrdered(t0, period, next, slot + m);
    DueOrdered(t0, period, slot + m, next - 1);
  }

  predicate ShortStalls(t0: int, period: int, finishes: seq<int>, n: nat)
    requires period > 0 && n <= |finishes|
  {
    forall j: nat | j < n :: ShortStall(t0, period, finishes, j)
  }

  lemma StallsInTime(t0: int, period: int, finishes: seq<int>, n: nat)
    requires 0 < period <= WATCHDOG && n <= |finishes|
    ensures InTime(RealTimes(t0, period, finishes), n + 1) <==> ShortStalls(t0, period, finishes, n)
  {
    hide RealTime;
    hide RealTimes;
    hide ShortStall;
    var times := RealTimes(t0, period, finishes);
    forall j: nat | j < n ensures times[j + 1] - times[j] <= WATCHDOG <==> ShortStall(t0, period, finishes, j) {
      ShortStallInTime(t0, period, finishes, j);
    }
    if InTime(times, n + 1) {
      forall j: nat | j < n ensures ShortStall(t0, period, finishes, j) { assert times[j + 1] - times[j + 1 - 1] <= WATCHDOG; }
    }
    if ShortStalls(t0, period, finishes, n) {
      forall j | 1 <= j < n + 1 ensures times[j] - times[j - 1] <= WATCHDOG { assert ShortStall(t0, period, finishes, j - 1); }
    }
  }

  /** Overruns of any length, in any cycles: the loop's torque decisions do not depend on them. Given the
      times its cycles are really due, it would permit torque only while every stall so far was short. So
      the two agree on a cycle exactly if the panel forbids torque anyway or there was no long stall. */
  lemma StallsUnseen(hz: int, t0: int, finishes: seq<int>, panels: seq<Panel>, n: nat)
    requires 20 <= hz <= 100_000 && n < |panels| <= |finishes| + 1
    ensures OutputsAt(Period(hz), panels, n).torque <==> PanelPermits(panels, n)
    ensures OutputsBy(RealTimes(t0, Period(hz), finishes), panels, n).torque <==>
            PanelPermits(panels, n) && ShortStalls(t0, Period(hz), finishes, n)
  {
    hide OutputsAt;
    hide OutputsBy;
    hide Before;
    hide PanelPermits;
    hide InTime;
    hide ShortStalls;
    hide RealTimes;
    PeriodWithinWatchdog(hz);
    TorqueFollowsPanel(hz, panels, n);
    TorqueGivenTimes(RealTimes(t0, Period(hz), finishes), panels, n);
    StallsInTime(t0, Period(hz), finishes, n);
  }

  /** At 1 kHz the first cycle stalls for a second, 20 watchdog periods. The second permits torque. */
  lemma StallExample()
    ensures var panels := [Panel(false, false), Panel(false, false)];
      && RealTime(0, Period(1000), [1_000_000_000], 1) == 1_000_000_000
      && OutputsAt(Period(1000), panels, 1).torque
      && !OutputsBy(RealTimes(0, Period(1000), [1_000_000_000]), panels, 1).torque
  {
    hide OutputsAt;
    hide OutputsBy;
    var panels, finishes := [Panel(false, false), Panel(false, false)], [1_000_000_000];
    StallsUnseen(1000, 0, finishes, panels, 1);
    assert Slot(0, 1_000_000, SkipMissed, finishes, 0) == 0;
    assert Slot(0, 1_000_000, SkipMissed, finishes, 1) == 1000;
    assert !ShortStall(0, 1_000_000, finishes, 0);
  }
}
