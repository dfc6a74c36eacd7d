/** The control thread of safeedged.cpp as a whole: an empty snapshot at start-up, then one cycle and one
    store per panel reading. */
module Runtime {
  import opened Bits
  import opened Snapshots
  import Crc32
  import Daemon
  import Seqlock

  /** What the thread reads besides the panel: the clock in each cycle, and the other snapshot fields. */
  datatype Surroundings = Surroundings(clock: uint64, statistics: Statistics, tail: Tail)

  datatype Run = Run(period: int, panels: seq<Daemon.Panel>, world: seq<Surroundings>, started: uint64) {
    predicate Sized() { |panels| == |world| }
  }

  /** The clock reading of the last visible transition before cycle n, `run.started` if there was none. */
  function LastTransition(run: Run, n: nat): uint64
    requires run.Sized() && n <= |run.panels|
  {
    if n == 0 then run.started
    else if Daemon.Shown(run.period, run.panels, n - 1) != Daemon.Shown(run.period, run.panels, n - 2) then run.world[n - 1].clock
    else LastTransition(run, n - 1)
  }

  /** Cycles completed when the n-th store is; the first store is the empty snapshot. */
  function CyclesBehind(n: nat): nat { if n == 0 then 0 else n - 1 }

  /** The snapshot a reader finds after n stores. */
  function Published(run: Run, n: nat): Snapshot
    requires run.Sized() && CyclesBehind(n) <= |run.panels|
  {
    if n <= 1 then EMPTY
    else
      SnapshotOf(
        Daemon.OutputsAt(run.period, run.panels, n - 2), LastTransition(run, n - 1),
        Daemon.Transitions(run.period, run.panels, n - 1) % TWO64)
  }

  /** The stores of the slot are those of the control loop. */
  predicate RuntimeStores(history: seq<seq<byte>>, run: Run)
  {
    && run.Sized() && |history| <= |run.panels| + 1 && (forall v | v in history :: |v| == SNAPSHOT_BYTES)
    && (forall n: nat | n <= |history| ::
          Decode(Seqlock.Stored(history, SNAPSHOT_BYTES, n)) == Published(run, n))
  }

  lemma NothingStored(run: Run)
    requires run.Sized()
    ensures RuntimeStores([], run)
  {
    hide Decode;
    hide Published;
    DecodeZero();
    FirstPublished(run);
  }

  lemma OneMoreStored(history: seq<seq<byte>>, value: seq<byte>, run: Run)
    requires RuntimeStores(history, run) && |history| <= |run.panels| && |value| == SNAPSHOT_BYTES
    requires Decode(value) == Published(run, |history| + 1)
    ensures RuntimeStores(history + [value], run)
  {
    hide Decode;
    hide Published;
    var more := history + [value];
    forall n: nat | n <= |more|
      ensures Decode(Seqlock.Stored(more, SNAPSHOT_BYTES, n)) == Published(run, n)
    {
      if n <= |history| {
        assert Seqlock.Stored(more, SNAPSHOT_BYTES, n) == Seqlock.Stored(history, SNAPSHOT_BYTES, n);
      }
    }
  }

  /** The states a slot has gone through after n stores: its first, and one per atomic store since. */
  function Instants(n: nat): nat { 1 + n * (Seqlock.WordCount(SNAPSHOT_BYTES) + 2) }

  lemma InstantsStep(n: nat)
    ensures Instants(0) == 1 && Instants(n + 1) == Instants(n) + Seqlock.WordCount(SNAPSHOT_BYTES) + 2
  {
    hide Seqlock.WordCount;
    var w := Seqlock.WordCount(SNAPSHOT_BYTES) + 2;
    assert (n + 1) * w == n * w + w;
  }

  /** After n cycles: the daemon is where the model says, and the slot holds its snapshots so far. */
  ghost predicate Reached(slot: Seqlock.SeqlockSlot, control: Daemon.ControlLoop, run: Run, n: nat)
    reads slot, control, control.Parts()
  {
    && run.Sized() && n <= |run.panels| && slot !in control.Parts()
    && control.Valid() && control.View() == Daemon.Before(run.period, run.panels, n)
    && control.lastTransition == LastTransition(run, n)
    && slot.Valid() && slot.size == SNAPSHOT_BYTES && |slot.history| == n + 1 && |slot.timeline| == Instants(n + 1)
    && RuntimeStores(slot.history, run)
  }

  /** The control thread: whatever the panel, the clock and the other fields, the slot ends up holding the
      daemon's snapshots, one per cycle and in order, behind a timeline no reader can be fooled by. */
  method RunAndPublish(table: seq<Crc32.Word>, run: Run)
    returns (slot: Seqlock.SeqlockSlot, control: Daemon.ControlLoop)
    requires Crc32.IsTable(table) && run.Sized()
    ensures fresh(slot) && slot.Valid() && slot.size == SNAPSHOT_BYTES && |slot.history| == |run.panels| + 1
    ensures |slot.timeline| == Instants(|run.panels| + 1)
    ensures fresh(control) && control.Valid() && control.View() == Daemon.Before(run.period, run.panels, |run.panels|)
    ensures RuntimeStores(slot.history, run)
  {
    hide Crc32.IsTable;
    hide RuntimeStores;
    hide Instants;
    hide Published;
    hide LastTransition;
    hide Decode;
    hide Layout;
    hide Daemon.Before;
    hide Daemon.Start;
    hide Seqlock.Timeline;
    hide Seqlock.WordCount;
    slot := new Seqlock.SeqlockSlot(SNAPSHOT_BYTES);
    NothingStored(run);
    InstantsStep(0);
    var empty := Layout(EMPTY, ZeroBytes(STATISTICS_BYTES), ZeroBytes(TAIL_BYTES));
    DecodeLayout(EMPTY, ZeroBytes(STATISTICS_BYTES), ZeroBytes(TAIL_BYTES));
    FirstPublished(run);
    OneMoreStored([], empty, run);
    slot.Store(empty);
    control := new Daemon.ControlLoop(table, run.started);
    NoCycleYet(run);
    for n := 0 to |run.panels|
      invariant fresh(slot) && fresh(control) && fresh(control.Parts()) && Reached(slot, control, run, n)
    {
      CycleAndStore(slot, control, run, n);
    }
  }

  /** One cycle of the control thread. */
  method CycleAndStore(slot: Seqlock.SeqlockSlot, control: Daemon.ControlLoop, run: Run, n: nat)
    requires n < |run.panels| && Reached(slot, control, run, n)
    modifies slot, control, control.Parts()
    ensures Reached(slot, control, run, n + 1)
  {
    hide RuntimeStores;
    hide Instants;
    hide Published;
    hide LastTransition;
    hide SnapshotOf;
    hide Decode;
    hide Layout;
    hide Daemon.Before;
    hide Daemon.Cycle;
    hide Daemon.Outcome;
    hide Daemon.Changes;
    hide Daemon.Transitions;
    hide Seqlock.Timeline;
    hide Seqlock.WordCount;
    OneMoreCycle(run, n);
    InstantsStep(n + 1);
    Daemon.SequenceCountsTransitions(run.period, run.panels, n + 1);
    CyclePublished(run, n);
    var outputs := control.RunCycle(run.period, n, run.panels[n], run.world[n].clock);
    var snapshot := SnapshotOf(outputs, control.lastTransition, control.sequence);
    var bytes := Layout(snapshot, run.world[n].statistics, run.world[n].tail);
    DecodeLayout(snapshot, run.world[n].statistics, run.world[n].tail);
    OneMoreStored(slot.history, bytes, run);
    slot.Store(bytes);
  }

  lemma NoCycleYet(run: Run)
    requires run.Sized()
    ensures Daemon.Before(run.period, run.panels, 0) == Daemon.Start() && LastTransition(run, 0) == run.started
  {}

  lemma OneMoreCycle(run: Run, n: nat)
    requires run.Sized() && n < |run.panels|
    ensures var d, now := Daemon.Before(run.period, run.panels, n), run.period * n;
            && Daemon.Before(run.period, run.panels, n + 1) == Daemon.Cycle(d, run.panels[n], now)
            && LastTransition(run, n + 1) ==
               (if Daemon.Changes(d, run.panels[n], now) then run.world[n].clock else LastTransition(run, n))
  {
    hide Daemon.Cycle;
    hide Daemon.Changes;
    hide Daemon.Shown;
    Daemon.ChangesAreShown(run.period, run.panels, n);
  }

  lemma FirstPublished(run: Run)
    requires run.Sized()
    ensures Published(run, 0) == EMPTY && Published(run, 1) == EMPTY
  {}

  /** The store that follows cycle n. */
  lemma CyclePublished(run: Run, n: nat)
    requires run.Sized() && n < |run.panels|
    ensures Published(run, n + 2) ==
            SnapshotOf(
              Daemon.Outcome(Daemon.Before(run.period, run.panels, n), run.panels[n], run.period * n),
              LastTransition(run, n + 1), Daemon.Transitions(run.period, run.panels, n + 1) % TWO64)
  {
    hide Daemon.Before;
    hide Daemon.Outcome;
    hide Daemon.Transitions;
    hide LastTransition;
    hide SnapshotOf;
  }
}
