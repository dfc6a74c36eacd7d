/** Transition accounting in the OPC UA publisher (events.cpp, the loop of safeedge_opcua.cpp): the
    snapshot slot is polled, and every change of the sequence number becomes one event that says how
    many transitions were missed. */
module Publisher {
  import opened Bits
  import opened Snapshots
  import Daemon
  import Runtime
  import Seqlock

  datatype TransitionEvent = TransitionEvent(transitionNs: int, sequence: uint64, state: uint32, torque: bool, missed: nat)

  /** A poll of the slot: contended, or a snapshot. */
  datatype Poll = Contended | Fresh(snapshot: Snapshot)

  datatype State = State(haveSequence: bool, lastSequence: uint64)

  const NOTHING_SEEN := State(false, 0)

  function AsSigned(value: uint64): int { if value < 0x8000_0000_0000_0000 then value else value - TWO64 }

  /** 64-bit unsigned difference. */
  function Advanced(sequence: uint64, previous: uint64): nat { (sequence - previous) % TWO64 }

  function DescribeTransition(s: Snapshot, previous: uint64): TransitionEvent {
    var advanced := Advanced(s.sequence, previous);
    TransitionEvent(AsSigned(s.transitionNs), s.sequence, s.state, s.torque != 0, if advanced > 1 then advanced - 1 else 0)
  }

  predicate Announces(p: State, poll: Poll) {
    poll.Fresh? && p.haveSequence && poll.snapshot.sequence != p.lastSequence
  }

  function Observe(p: State, poll: Poll): State { if poll.Fresh? then State(true, poll.snapshot.sequence) else p }

  function StateAt(polls: seq<Poll>, k: nat): State
    requires k <= |polls|
  {
    if k == 0 then NOTHING_SEEN else Observe(StateAt(polls, k - 1), polls[k - 1])
  }

  function EventsOf(polls: seq<Poll>, k: nat): seq<TransitionEvent>
    requires k <= |polls|
  {
    if k == 0 then []
    else if Announces(StateAt(polls, k - 1), polls[k - 1]) then
      EventsOf(polls, k - 1) + [DescribeTransition(polls[k - 1].snapshot, StateAt(polls, k - 1).lastSequence)]
    else EventsOf(polls, k - 1)
  }

  function TotalMissed(events: seq<TransitionEvent>): nat {
    if events == [] then 0 else TotalMissed(events[..|events| - 1]) + events[|events| - 1].missed
  }

  /** Events described plus the transitions they report as missed. */
  function Accounted(polls: seq<Poll>, k: nat): nat
    requires k <= |polls|
  {
    |EventsOf(polls, k)| + TotalMissed(EventsOf(polls, k))
  }

  // ------------------------------------------------------------------ one poll

  /** A poll accounts for exactly the 64-bit advance of the sequence number since the last one. */
  lemma PollAccounts(polls: seq<Poll>, k: nat)
    requires k < |polls|
    ensures Accounted(polls, k + 1) == Accounted(polls, k) +
      (if polls[k].Fresh? && StateAt(polls, k).haveSequence then
         Advanced(polls[k].snapshot.sequence, StateAt(polls, k).lastSequence) else 0)
  {
    var p := StateAt(polls, k);
    var events := EventsOf(polls, k);
    if Announces(p, polls[k]) {
      var e := DescribeTransition(polls[k].snapshot, p.lastSequence);
      assert (events + [e])[..|events|] == events;
      AdvancedNonZero(polls[k].snapshot.sequence, p.lastSequence);
    }
  }

  lemma AdvancedNonZero(a: uint64, b: uint64)
    ensures Advanced(a, b) == 0 <==> a == b
    ensures Advanced(a, b) == if a >= b then a - b else a - b + TWO64
  {}

  // ------------------------------------------------------------------ every run of polls

  /** The sequence number of the first fresh poll. */
  function FirstSequence(polls: seq<Poll>, k: nat): uint64
    requires k <= |polls|
  {
    if k == 0 then 0
    else if StateAt(polls, k - 1).haveSequence then FirstSequence(polls, k - 1)
    else if polls[k - 1].Fresh? then polls[k - 1].snapshot.sequence
    else 0
  }

  /** Events plus missed counts are the last sequence number observed minus the first, modulo 2^64. */
  lemma {:induction false} AccountsForAdvance(polls: seq<Poll>, k: nat)
    requires k <= |polls| && StateAt(polls, k).haveSequence
    ensures Accounted(polls, k) % TWO64 == Advanced(StateAt(polls, k).lastSequence, FirstSequence(polls, k))
  {
    hide Accounted;
    hide Advanced;
    PollAccounts(polls, k - 1);
    if StateAt(polls, k - 1).haveSequence {
      AccountsForAdvance(polls, k - 1);
      if polls[k - 1].Fresh? {
        var last, next := StateAt(polls, k - 1).lastSequence, polls[k - 1].snapshot.sequence;
        AdvancesAdd(Accounted(polls, k - 1), FirstSequence(polls, k), last, next);
      }
    } else {
      SilentUntilFresh(polls, k - 1);
      AdvancedItself(StateAt(polls, k).lastSequence);
    }
  }

  lemma {:induction false} SilentUntilFresh(polls: seq<Poll>, k: nat)
    requires k <= |polls| && !StateAt(polls, k).haveSequence
    ensures Accounted(polls, k) == 0 && EventsOf(polls, k) == []
  {
    if k > 0 { SilentUntilFresh(polls, k - 1); }
  }

  lemma AdvancedItself(a: uint64)
    ensures Advanced(a, a) == 0
  {}

  lemma AdvancesAdd(total: nat, first: uint64, last: uint64, next: uint64)
    requires total % TWO64 == Advanced(last, first)
    ensures (total + Advanced(next, last)) % TWO64 == Advanced(next, first)
  {
    hide Advanced;
    AdvanceSplits(first, last, next);
    SumOfResidues(total, Advanced(next, last));
  }

  lemma AdvanceSplits(first: uint64, last: uint64, next: uint64)
    ensures Advanced(next, first) == (Advanced(last, first) + Advanced(next, last)) % TWO64
    ensures Advanced(next, last) % TWO64 == Advanced(next, last)
  {
    SumOfResidues(last - first, next - last);
  }

  lemma SumOfResidues(a: int, b: int)
    ensures (a % TWO64 + b % TWO64) % TWO64 == (a + b) % TWO64
  {
    var m := TWO64;
    var r := a % m + b % m;
    assert a + b == (a / m + b / m) * m + r;
    assert r == (r / m) * m + r % m;
    ModUnique(a + b, m, a / m + b / m + r / m, r % m);
  }

  // ------------------------------------------------------------------ true counts behind the register

  function LastFresh(polls: seq<Poll>, k: nat): (i: nat)
    requires k <= |polls| && StateAt(polls, k).haveSequence
    ensures i < k && polls[i].Fresh?
  {
    if polls[k - 1].Fresh? then k - 1 else LastFresh(polls, k - 1)
  }

  function FirstFresh(polls: seq<Poll>, k: nat): (i: nat)
    requires k <= |polls| && StateAt(polls, k).haveSequence
    ensures i < k && polls[i].Fresh?
  {
    if StateAt(polls, k - 1).haveSequence then FirstFresh(polls, k - 1) else k - 1
  }

  /** Fresh polls show a growing count through a 64-bit register. */
  predicate Shows(polls: seq<Poll>, counts: seq<nat>) {
    && |counts| == |polls|
    && (forall i | 0 <= i < |polls| && polls[i].Fresh? :: polls[i].snapshot.sequence == counts[i] % TWO64)
    && (forall i, j | 0 <= i <= j < |polls| && polls[i].Fresh? && polls[j].Fresh? :: counts[i] <= counts[j])
  }

  /** Fewer than 2^64 transitions since the previous fresh poll. */
  predicate Bounded(polls: seq<Poll>, counts: seq<nat>, k: nat)
    requires k < |polls| == |counts|
  {
    polls[k].Fresh? && StateAt(polls, k).haveSequence ==> counts[k] - counts[LastFresh(polls, k)] < TWO64
  }

  predicate AllBounded(polls: seq<Poll>, counts: seq<nat>, k: nat)
    requires k <= |polls| == |counts|
  {
    forall j: nat | j < k :: Bounded(polls, counts, j)
  }

  lemma AllBoundedStep(polls: seq<Poll>, counts: seq<nat>, k: nat)
    requires k < |polls| == |counts|
    ensures AllBounded(polls, counts, k + 1) <==> AllBounded(polls, counts, k) && Bounded(polls, counts, k)
  {}

  lemma {:induction false} LastIsLastFresh(polls: seq<Poll>, counts: seq<nat>, k: nat)
    requires k <= |polls| && Shows(polls, counts) && StateAt(polls, k).haveSequence
    ensures StateAt(polls, k).lastSequence == counts[LastFresh(polls, k)] % TWO64
  {
    if !polls[k - 1].Fresh? { LastIsLastFresh(polls, counts, k - 1); }
  }

  lemma AdvanceOfCounts(a: nat, b: nat)
    requires b <= a
    ensures Advanced(a % TWO64, b % TWO64) <= a - b
    ensures Advanced(a % TWO64, b % TWO64) == a - b <==> a - b < TWO64
  {
    var q, r := (a - b) / TWO64, (a - b) % TWO64;
    assert a - b == q * TWO64 + r;
    AdvancedResidue(a, b);
  }

  lemma AdvancedResidue(a: nat, b: nat)
    requires b <= a
    ensures Advanced(a % TWO64, b % TWO64) == (a - b) % TWO64
  {
    var m := TWO64;
    var d := a % m - b % m;
    assert a - b == (a / m - b / m) * m + d;
    assert d == (d / m) * m + d % m;
    ModUnique(a - b, m, a / m - b / m + d / m, d % m);
  }

  /** Nothing is ever counted that did not happen, and everything that happened between the first
      and the last fresh poll is counted if and only if no two of them are 2^64 transitions apart. */
  lemma {:induction false} AccountsForAll(polls: seq<Poll>, counts: seq<nat>, k: nat)
    requires k <= |polls| && Shows(polls, counts) && StateAt(polls, k).haveSequence
    ensures var first, last := counts[FirstFresh(polls, k)], counts[LastFresh(polls, k)];
      && first + Accounted(polls, k) <= last
      && (first + Accounted(polls, k) == last <==> AllBounded(polls, counts, k))
  {
    hide Accounted;
    hide Advanced;
    hide AllBounded;
    PollAccounts(polls, k - 1);
    AllBoundedStep(polls, counts, k - 1);
    if StateAt(polls, k - 1).haveSequence {
      AccountsForAll(polls, counts, k - 1);
      if polls[k - 1].Fresh? {
        LastIsLastFresh(polls, counts, k - 1);
        AdvanceOfCounts(counts[k - 1], counts[LastFresh(polls, k - 1)]);
      }
    } else {
      SilentUntilFresh(polls, k - 1);
      NoneBefore(polls, counts, k - 1);
    }
  }

  lemma {:induction false} NoneBefore(polls: seq<Poll>, counts: seq<nat>, k: nat)
    requires k <= |polls| == |counts| && !StateAt(polls, k).haveSequence
    ensures AllBounded(polls, counts, k)
  {
    if k > 0 { NoneBefore(polls, counts, k - 1); }
  }

  // ------------------------------------------------------------------ through the snapshot slot

  /** Poll i, if fresh, returned the last store completed at instant ats[i]; polls follow each other. */
  ghost predicate Honest(polls: seq<Poll>, ats: seq<nat>, timeline: seq<Seqlock.Memory>, history: seq<seq<byte>>)
    requires Seqlock.Timeline(timeline, history, SNAPSHOT_BYTES)
  {
    && |ats| == |polls|
    && (forall i | 0 <= i < |ats| :: ats[i] < |timeline|)
    && (forall i, j | 0 <= i <= j < |ats| :: ats[i] <= ats[j])
    && (forall i | 0 <= i < |polls| && polls[i].Fresh? ::
          timeline[ats[i]].count % 2 == 0
          && polls[i].snapshot == Decode(Seqlock.Stored(history, SNAPSHOT_BYTES, timeline[ats[i]].count / 2)))
  }

  /** The cycles behind the snapshot a poll at this instant can see. */
  function CyclesAt(m: Seqlock.Memory): nat { Runtime.CyclesBehind(m.count / 2) }

  /** Polls of a slot that holds the snapshots of a run of the control loop. */
  ghost predicate Watches(polls: seq<Poll>, ats: seq<nat>, timeline: seq<Seqlock.Memory>, history: seq<seq<byte>>, run: Runtime.Run) {
    && Seqlock.Timeline(timeline, history, SNAPSHOT_BYTES) && Honest(polls, ats, timeline, history)
    && Runtime.RuntimeStores(history, run)
  }

  /** A fresh poll shows one of the loop's snapshots, sequence number and all. */
  lemma PollShows(polls: seq<Poll>, ats: seq<nat>, timeline: seq<Seqlock.Memory>, history: seq<seq<byte>>, run: Runtime.Run, i: nat)
    requires Watches(polls, ats, timeline, history, run) && i < |polls| && polls[i].Fresh?
    ensures CyclesAt(timeline[ats[i]]) <= |run.panels| == |run.world|
    ensures polls[i].snapshot == Runtime.Published(run, timeline[ats[i]].count / 2)
    ensures polls[i].snapshot.sequence == Daemon.Transitions(run.period, run.panels, CyclesAt(timeline[ats[i]])) % TWO64
  {
    hide Seqlock.Pack;
    hide Seqlock.WordCount;
    hide Seqlock.Stored;
    hide Decode;
    hide Runtime.Published;
    PublishedSequence(run, timeline[ats[i]].count / 2);
  }

  lemma PublishedSequence(run: Runtime.Run, n: nat)
    requires run.Sized() && Runtime.CyclesBehind(n) <= |run.panels|
    ensures Runtime.Published(run, n).sequence == Daemon.Transitions(run.period, run.panels, Runtime.CyclesBehind(n)) % TWO64
  {
    hide Daemon.OutputsAt;
    hide Runtime.LastTransition;
    hide Daemon.Shown;
  }

  /** The transitions that had happened at each fresh poll. */
  ghost function TrueCounts(polls: seq<Poll>, ats: seq<nat>, timeline: seq<Seqlock.Memory>, run: Runtime.Run): (r: seq<nat>)
    requires |ats| == |polls| && forall i | 0 <= i < |polls| && polls[i].Fresh? ::
               ats[i] < |timeline| && CyclesAt(timeline[ats[i]]) <= |run.panels|
    ensures |r| == |polls|
  {
    seq(|polls|, i requires 0 <= i < |polls| =>
      if polls[i].Fresh? then Daemon.Transitions(run.period, run.panels, CyclesAt(timeline[ats[i]])) else 0)
  }

  lemma {:induction false} TransitionsGrow(period: int, panels: seq<Daemon.Panel>, i: nat, j: nat)
    requires i <= j <= |panels|
    ensures Daemon.Transitions(period, panels, i) <= Daemon.Transitions(period, panels, j) <= j
    decreases j
  {
    hide Daemon.Shown;
    if i < j { TransitionsGrow(period, panels, i, j - 1); }
    else if j > 0 { TransitionsGrow(period, panels, j - 1, j - 1); }
  }

  lemma PollsInRange(polls: seq<Poll>, ats: seq<nat>, timeline: seq<Seqlock.Memory>, history: seq<seq<byte>>, run: Runtime.Run)
    requires Watches(polls, ats, timeline, history, run)
    ensures |ats| == |polls| && forall i | 0 <= i < |polls| && polls[i].Fresh? ::
              ats[i] < |timeline| && CyclesAt(timeline[ats[i]]) <= |run.panels|
    ensures forall i, j | 0 <= i <= j < |polls| && polls[i].Fresh? && polls[j].Fresh? ::
              CyclesAt(timeline[ats[i]]) <= CyclesAt(timeline[ats[j]])
  {
    hide CyclesAt;
    forall i | 0 <= i < |polls| && polls[i].Fresh? ensures ats[i] < |timeline| && CyclesAt(timeline[ats[i]]) <= |run.panels| {
      PollShows(polls, ats, timeline, history, run, i);
    }
    forall i, j | 0 <= i <= j < |polls| && polls[i].Fresh? && polls[j].Fresh?
      ensures CyclesAt(timeline[ats[i]]) <= CyclesAt(timeline[ats[j]])
    {
      CyclesGrow(timeline, history, ats[i], ats[j]);
    }
  }

  lemma CyclesGrow(timeline: seq<Seqlock.Memory>, history: seq<seq<byte>>, earlier: nat, later: nat)
    requires Seqlock.Timeline(timeline, history, SNAPSHOT_BYTES) && earlier <= later < |timeline|
    ensures CyclesAt(timeline[earlier]) <= CyclesAt(timeline[later])
  {
    hide Seqlock.Timeline;
    Seqlock.NeverRegresses(timeline, history, SNAPSHOT_BYTES, earlier, later);
  }

  lemma PollsShowTransitions(polls: seq<Poll>, ats: seq<nat>, timeline: seq<Seqlock.Memory>, history: seq<seq<byte>>, run: Runtime.Run)
    requires Watches(polls, ats, timeline, history, run)
    ensures |ats| == |polls| && forall i | 0 <= i < |polls| && polls[i].Fresh? ::
              ats[i] < |timeline| && CyclesAt(timeline[ats[i]]) <= |run.panels|
    ensures Shows(polls, TrueCounts(polls, ats, timeline, run))
  {
    PollsInRange(polls, ats, timeline, history, run);
    hide Watches;
    hide CyclesAt;
    hide Daemon.Transitions;
    forall i | 0 <= i < |polls| && polls[i].Fresh?
      ensures polls[i].snapshot.sequence == Daemon.Transitions(run.period, run.panels, CyclesAt(timeline[ats[i]])) % TWO64
    {
      PollShows(polls, ats, timeline, history, run, i);
    }
    forall i, j | 0 <= i <= j < |polls| && polls[i].Fresh? && polls[j].Fresh?
      ensures Daemon.Transitions(run.period, run.panels, CyclesAt(timeline[ats[i]]))
              <= Daemon.Transitions(run.period, run.panels, CyclesAt(timeline[ats[j]]))
    {
      TransitionsGrow(run.period, run.panels, CyclesAt(timeline[ats[i]]), CyclesAt(timeline[ats[j]]));
    }
  }

  /** Events plus missed counts are the state or torque changes between cycles `first` and `last`. */
  predicate Accounts(events: seq<TransitionEvent>, run: Runtime.Run, first: nat, last: nat) {
    && first <= last <= |run.panels|
    && |events| + TotalMissed(events)
       == Daemon.Transitions(run.period, run.panels, last) - Daemon.Transitions(run.period, run.panels, first)
  }

  /** Over any interleaving of the runtime's stores with the publisher's polls, in a run of fewer than
      2^64 cycles, events plus missed counts are the state or torque changes between the first and the
      last snapshot observed. None goes unaccounted, none is invented. */
  lemma TransitionsAccounted(polls: seq<Poll>, ats: seq<nat>, timeline: seq<Seqlock.Memory>, history: seq<seq<byte>>,
                             run: Runtime.Run, k: nat)
    requires Watches(polls, ats, timeline, history, run) && |run.panels| < TWO64
    requires k <= |polls| && StateAt(polls, k).haveSequence
    ensures Accounts(EventsOf(polls, k), run, CyclesAt(timeline[ats[FirstFresh(polls, k)]]), CyclesAt(timeline[ats[LastFresh(polls, k)]]))
  {
    hide Watches;
    hide CyclesAt;
    hide Daemon.Transitions;
    hide AllBounded;
    hide Shows;
    hide StateAt;
    hide EventsOf;
    hide TotalMissed;
    hide FirstFresh;
    hide LastFresh;
    PollsShowTransitions(polls, ats, timeline, history, run);
    PollsInRange(polls, ats, timeline, history, run);
    var counts := TrueCounts(polls, ats, timeline, run);
    SmallCounts(polls, ats, timeline, run);
    SmallCountsBounded(polls, counts, k);
    AccountsForAll(polls, counts, k);
    FirstBeforeLast(polls, k);
  }

  /** A run of fewer than 2^64 cycles has fewer than 2^64 transitions. */
  lemma SmallCounts(polls: seq<Poll>, ats: seq<nat>, timeline: seq<Seqlock.Memory>, run: Runtime.Run)
    requires |run.panels| < TWO64
    requires |ats| == |polls| && forall i | 0 <= i < |polls| && polls[i].Fresh? ::
               ats[i] < |timeline| && CyclesAt(timeline[ats[i]]) <= |run.panels|
    ensures forall j | 0 <= j < |polls| :: TrueCounts(polls, ats, timeline, run)[j] < TWO64
  {
    hide CyclesAt;
    hide Daemon.Transitions;
    forall j | 0 <= j < |polls| ensures TrueCounts(polls, ats, timeline, run)[j] < TWO64 {
      if polls[j].Fresh? {
        var n := CyclesAt(timeline[ats[j]]);
        TransitionsGrow(run.period, run.panels, n, n);
      }
    }
  }

  lemma SmallCountsBounded(polls: seq<Poll>, counts: seq<nat>, k: nat)
    requires k <= |polls| == |counts| && forall j | 0 <= j < |counts| :: counts[j] < TWO64
    ensures AllBounded(polls, counts, k)
  {}

  lemma {:induction false} FirstBeforeLast(polls: seq<Poll>, k: nat)
    requires k <= |polls| && StateAt(polls, k).haveSequence
    ensures FirstFresh(polls, k) <= LastFresh(polls, k)
  {
    if StateAt(polls, k - 1).haveSequence { FirstBeforeLast(polls, k - 1); }
  }

  // ------------------------------------------------------------------ the loop

  const MAX_ATTEMPTS := 32

  /** The publishing loop, one iteration per schedule: whatever the interleaving, each poll is current in
      its own call, polls never go back, and the events are exactly those the polls call for. */
  method PublishLoop(timeline: seq<Seqlock.Memory>, schedules: seq<seq<nat>>, ghost history: seq<seq<byte>>)
    returns (events: seq<TransitionEvent>, polls: seq<Poll>, ghost ats: seq<nat>)
    requires Seqlock.Timeline(timeline, history, SNAPSHOT_BYTES)
    requires Seqlock.Successive(schedules, timeline, SNAPSHOT_BYTES, MAX_ATTEMPTS)
    ensures |polls| == |ats| == |schedules| && Honest(polls, ats, timeline, history)
    ensures forall i | 0 <= i < |polls| :: Polled(polls[i], ats[i], schedules[i], timeline, history)
    ensures events == EventsOf(polls, |polls|)
  {
    hide Seqlock.Timeline;
    hide Seqlock.Schedule;
    hide Seqlock.NoWrap;
    hide Seqlock.WordCount;
    hide Seqlock.GaveUp;
    hide Seqlock.Stored;
    hide Decode;
    hide Polled;
    var haveSequence, lastSequence: uint64 := false, 0;
    events, polls, ats := [], [], [];
    for i := 0 to |schedules|
      invariant |polls| == |ats| == i
      invariant forall j | 0 <= j < i :: Polled(polls[j], ats[j], schedules[j], timeline, history)
      invariant State(haveSequence, lastSequence) == StateAt(polls, i) && events == EventsOf(polls, i)
    {
      var poll, at := PollSlot(timeline, schedules[i], history);
      if poll.Fresh? {
        if !haveSequence {
          lastSequence := poll.snapshot.sequence;
          haveSequence := true;
        } else if poll.snapshot.sequence != lastSequence {
          events := events + [DescribeTransition(poll.snapshot, lastSequence)];
          lastSequence := poll.snapshot.sequence;
        }
      }
      PollAppended(polls, poll);
      polls := polls + [poll];
      ats := ats + [at];
    }
    AllHonest(polls, ats, schedules, timeline, history);
  }

  /** What one poll saw: the latest snapshot at an instant of the call, or every attempt collided. */
  ghost predicate Polled(poll: Poll, at: nat, schedule: seq<nat>, timeline: seq<Seqlock.Memory>, history: seq<seq<byte>>)
    requires Seqlock.Timeline(timeline, history, SNAPSHOT_BYTES)
  {
    && Seqlock.Schedule(schedule, timeline) && schedule != []
    && schedule[0] <= at <= schedule[|schedule| - 1] && at < |timeline|
    && (poll.Fresh? ==>
          && timeline[at].count % 2 == 0
          && poll.snapshot == Decode(Seqlock.Stored(history, SNAPSHOT_BYTES, timeline[at].count / 2)))
    && (poll.Contended? ==> Seqlock.GaveUp(schedule, timeline, SNAPSHOT_BYTES, MAX_ATTEMPTS))
  }

  lemma AllHonest(polls: seq<Poll>, ats: seq<nat>, schedules: seq<seq<nat>>, timeline: seq<Seqlock.Memory>, history: seq<seq<byte>>)
    requires Seqlock.Timeline(timeline, history, SNAPSHOT_BYTES)
    requires Seqlock.Successive(schedules, timeline, SNAPSHOT_BYTES, MAX_ATTEMPTS) && |polls| == |ats| == |schedules|
    requires forall j | 0 <= j < |polls| :: Polled(polls[j], ats[j], schedules[j], timeline, history)
    ensures Honest(polls, ats, timeline, history)
  {
    hide Seqlock.Pack;
    hide Seqlock.NoWrap;
    hide Seqlock.WordCount;
    hide Seqlock.GaveUp;
    hide Seqlock.Stored;
    hide Decode;
    forall i, j | 0 <= i <= j < |ats| ensures ats[i] <= ats[j] {
      if i < j { assert schedules[i][|schedules[i]| - 1] <= schedules[j][0]; }
    }
  }

  method PollSlot(timeline: seq<Seqlock.Memory>, schedule: seq<nat>, ghost history: seq<seq<byte>>)
    returns (poll: Poll, ghost at: nat)
    requires Seqlock.Timeline(timeline, history, SNAPSHOT_BYTES)
    requires Seqlock.CallSchedule(schedule, timeline, SNAPSHOT_BYTES, MAX_ATTEMPTS)
    ensures Polled(poll, at, schedule, timeline, history)
  {
    hide Seqlock.Timeline;
    hide Seqlock.NoWrap;
    hide Seqlock.WordCount;
    hide Seqlock.GaveUp;
    hide Seqlock.Stored;
    hide Decode;
    var buffer := new byte[SNAPSHOT_BYTES];
    var loaded, loads;
    loaded, loads, at := Seqlock.TryLoad(timeline, SNAPSHOT_BYTES, schedule, buffer, MAX_ATTEMPTS, history);
    if loaded {
      poll := Fresh(Decode(buffer[..]));
    } else {
      poll, at := Contended, schedule[0];
    }
  }

  /** End to end, from the control thread's objects to the events: a publisher polls the slot of a run of
      the control loop, at any instants at all. If it ever got through, its events and their missed counts
      account for every transition between the first and the last cycle it saw, and each event carries
      a snapshot the loop published. */
  method WatchRuntime(slot: Seqlock.SeqlockSlot, schedules: seq<seq<nat>>, ghost run: Runtime.Run)
    returns (events: seq<TransitionEvent>, polls: seq<Poll>, ghost ats: seq<nat>)
    requires slot.Valid() && slot.size == SNAPSHOT_BYTES && Runtime.RuntimeStores(slot.history, run) && |run.panels| < TWO64
    requires Seqlock.Successive(schedules, slot.timeline, SNAPSHOT_BYTES, MAX_ATTEMPTS)
    ensures |polls| == |ats| == |schedules|
    ensures forall i | 0 <= i < |polls| :: Polled(polls[i], ats[i], schedules[i], slot.timeline, slot.history)
    ensures forall i | 0 <= i < |polls| && polls[i].Fresh? :: ShowsCycleAt(polls[i].snapshot, run, slot.timeline, ats[i])
    ensures events == EventsOf(polls, |polls|) && forall e | e in events :: Told(e, polls, ats, slot.timeline, run)
    ensures AccountsBetween(events, polls, ats, slot.timeline, run)
  {
    hide Seqlock.Timeline;
    hide Seqlock.Successive;
    hide Honest;
    hide EventsOf;
    hide Told;
    hide Accounts;
    hide ShowsCycleAt;
    hide AccountsBetween;
    hide Runtime.RuntimeStores;
    hide CyclesAt;
    hide StateAt;
    hide FirstFresh;
    hide LastFresh;
    hide Decode;
    hide Seqlock.GaveUp;
    events, polls, ats := PublishLoop(slot.timeline, schedules, slot.history);
    AllAccounted(polls, ats, slot.timeline, slot.history, run);
    forall i | 0 <= i < |polls| && polls[i].Fresh?
      ensures ShowsCycleAt(polls[i].snapshot, run, slot.timeline, ats[i])
    {
      PollShowsCycle(polls, ats, slot.timeline, slot.history, run, i);
    }
    EventsTell(polls, ats, slot.timeline, slot.history, run, |polls|);
  }

  lemma AllAccounted(polls: seq<Poll>, ats: seq<nat>, timeline: seq<Seqlock.Memory>, history: seq<seq<byte>>, run: Runtime.Run)
    requires Watches(polls, ats, timeline, history, run) && |run.panels| < TWO64
    ensures AccountsBetween(EventsOf(polls, |polls|), polls, ats, timeline, run)
  {
    hide Accounts;
    hide CyclesAt;
    hide EventsOf;
    hide StateAt;
    hide FirstFresh;
    hide LastFresh;
    hide Watches;
    AtsInRange(polls, ats, timeline, history, run);
    if StateAt(polls, |polls|).haveSequence {
      TransitionsAccounted(polls, ats, timeline, history, run, |polls|);
    } else {
      SilentUntilFresh(polls, |polls|);
    }
  }

  /** The snapshot is what a consumer should see once n cycles of the run have completed. */
  predicate ShowsCycle(s: Snapshot, run: Runtime.Run, n: nat) {
    && run.Sized() && n <= |run.panels|
    && s.sequence == Daemon.Transitions(run.period, run.panels, n) % TWO64
    && (if n == 0 then s == EMPTY
        else
          var o := Daemon.OutputsAt(run.period, run.panels, n - 1);
          s == SnapshotOf(o, Runtime.LastTransition(run, n), s.sequence))
  }

  predicate ShowsCycleAt(s: Snapshot, run: Runtime.Run, timeline: seq<Seqlock.Memory>, at: nat) {
    at < |timeline| && ShowsCycle(s, run, CyclesAt(timeline[at]))
  }

  /** The events account for every transition between the first and the last cycle a poll saw; without a
      fresh poll there are none. */
  predicate AccountsBetween(events: seq<TransitionEvent>, polls: seq<Poll>, ats: seq<nat>, timeline: seq<Seqlock.Memory>,
                            run: Runtime.Run)
  {
    var n := |polls|;
    if StateAt(polls, n).haveSequence then
      var first, last := FirstFresh(polls, n), LastFresh(polls, n);
      && |ats| == n && ats[first] < |timeline| && ats[last] < |timeline|
      && Accounts(events, run, CyclesAt(timeline[ats[first]]), CyclesAt(timeline[ats[last]]))
    else events == []
  }

  lemma PollShowsCycle(polls: seq<Poll>, ats: seq<nat>, timeline: seq<Seqlock.Memory>, history: seq<seq<byte>>, run: Runtime.Run, i: nat)
    requires Watches(polls, ats, timeline, history, run) && i < |polls| && polls[i].Fresh?
    ensures |ats| == |polls| && ShowsCycleAt(polls[i].snapshot, run, timeline, ats[i])
  {
    AtsInRange(polls, ats, timeline, history, run);
    PollShows(polls, ats, timeline, history, run, i);
    PublishedShows(run, timeline[ats[i]].count / 2);
  }

  lemma PublishedShows(run: Runtime.Run, n: nat)
    requires run.Sized() && Runtime.CyclesBehind(n) <= |run.panels|
    ensures ShowsCycle(Runtime.Published(run, n), run, Runtime.CyclesBehind(n))
  {
    hide Daemon.OutputsAt;
    hide Runtime.LastTransition;
    hide Daemon.Shown;
    PublishedSequence(run, n);
  }

  /** The event of a fresh poll, in terms of the cycle that poll saw and of the fresh poll before it. */
  predicate EventOf(e: TransitionEvent, polls: seq<Poll>, ats: seq<nat>, timeline: seq<Seqlock.Memory>, run: Runtime.Run, i: nat) {
    && i < |polls| == |ats| && polls[i].Fresh? && StateAt(polls, i).haveSequence && ats[i] < |timeline|
    && DescribesCycle(e, run, CyclesAt(timeline[ats[i]]) - 1)
    && e.missed + 1 == (e.sequence - polls[LastFresh(polls, i)].snapshot.sequence) % TWO64
  }

  /** State, torque, transition count and transition time of cycle n, the time read as signed. */
  predicate DescribesCycle(e: TransitionEvent, run: Runtime.Run, n: int) {
    && run.Sized() && 0 <= n < |run.panels|
    && e.torque == Daemon.OutputsAt(run.period, run.panels, n).torque
    && e.state == Daemon.OutputsAt(run.period, run.panels, n).state.Rank()
    && e.sequence == Daemon.Transitions(run.period, run.panels, n + 1) % TWO64
    && (var t := Runtime.LastTransition(run, n + 1);
        e.transitionNs == if t < 0x8000_0000_0000_0000 then t else t - TWO64)
  }

  ghost predicate Told(e: TransitionEvent, polls: seq<Poll>, ats: seq<nat>, timeline: seq<Seqlock.Memory>, run: Runtime.Run) {
    exists i: nat :: EventOf(e, polls, ats, timeline, run, i)
  }

  lemma DescribedCycle(s: Snapshot, previous: uint64, run: Runtime.Run, n: nat)
    requires n >= 1 && ShowsCycle(s, run, n)
    ensures DescribesCycle(DescribeTransition(s, previous), run, n - 1)
  {
    hide Daemon.OutputsAt;
    hide Daemon.Transitions;
    hide Runtime.LastTransition;
  }

  lemma DescribedMissed(s: Snapshot, previous: uint64)
    requires s.sequence != previous
    ensures DescribeTransition(s, previous).missed + 1 == (s.sequence - previous) % TWO64
  {
    AdvancedNonZero(s.sequence, previous);
  }

  lemma {:induction false} LastIsShown(polls: seq<Poll>, k: nat)
    requires k <= |polls| && StateAt(polls, k).haveSequence
    ensures StateAt(polls, k).lastSequence == polls[LastFresh(polls, k)].snapshot.sequence
  {
    if !polls[k - 1].Fresh? { LastIsShown(polls, k - 1); }
  }

  /** A poll that still sees the start-up snapshot announces nothing. */
  lemma AnnouncedCycle(polls: seq<Poll>, ats: seq<nat>, timeline: seq<Seqlock.Memory>, history: seq<seq<byte>>, run: Runtime.Run, i: nat)
    requires Watches(polls, ats, timeline, history, run) && i < |polls| && Announces(StateAt(polls, i), polls[i])
    ensures |ats| == |polls| && ats[i] < |timeline| && CyclesAt(timeline[ats[i]]) >= 1
    ensures ShowsCycle(polls[i].snapshot, run, CyclesAt(timeline[ats[i]]))
  {
    hide Watches;
    hide ShowsCycle;
    hide CyclesAt;
    AtsInRange(polls, ats, timeline, history, run);
    PollShowsCycle(polls, ats, timeline, history, run, i);
    var j := LastFresh(polls, i);
    LastIsShown(polls, i);
    PollShowsCycle(polls, ats, timeline, history, run, j);
    PollsInRange(polls, ats, timeline, history, run);
    if CyclesAt(timeline[ats[i]]) == 0 {
      SameStart(polls[i].snapshot, polls[j].snapshot, run);
    }
  }

  lemma SameStart(s: Snapshot, t: Snapshot, run: Runtime.Run)
    requires ShowsCycle(s, run, 0) && ShowsCycle(t, run, 0)
    ensures s == t
  {}

  lemma {:induction false} EventsTell(polls: seq<Poll>, ats: seq<nat>, timeline: seq<Seqlock.Memory>, history: seq<seq<byte>>,
                                      run: Runtime.Run, k: nat)
    requires Watches(polls, ats, timeline, history, run) && k <= |polls|
    ensures forall e | e in EventsOf(polls, k) :: Told(e, polls, ats, timeline, run)
  {
    hide Watches;
    hide ShowsCycle;
    hide DescribesCycle;
    hide DescribeTransition;
    hide CyclesAt;
    if k > 0 {
      EventsTell(polls, ats, timeline, history, run, k - 1);
      var p := StateAt(polls, k - 1);
      if Announces(p, polls[k - 1]) {
        AnnouncedCycle(polls, ats, timeline, history, run, k - 1);
        var shot := polls[k - 1].snapshot;
        DescribedCycle(shot, p.lastSequence, run, CyclesAt(timeline[ats[k - 1]]));
        DescribedMissed(shot, p.lastSequence);
        DescribedSequence(shot, p.lastSequence);
        LastIsShown(polls, k - 1);
        assert EventOf(DescribeTransition(shot, p.lastSequence), polls, ats, timeline, run, k - 1);
      }
    }
  }

  lemma DescribedSequence(s: Snapshot, previous: uint64)
    ensures DescribeTransition(s, previous).sequence == s.sequence
  {}

  lemma AtsInRange(polls: seq<Poll>, ats: seq<nat>, timeline: seq<Seqlock.Memory>, history: seq<seq<byte>>, run: Runtime.Run)
    requires Watches(polls, ats, timeline, history, run)
    ensures |ats| == |polls| && forall i | 0 <= i < |polls| :: ats[i] < |timeline|
    ensures run.Sized()
  {}

  lemma {:induction false} PrefixSame(polls: seq<Poll>, poll: Poll, k: nat)
    requires k <= |polls|
    ensures StateAt(polls + [poll], k) == StateAt(polls, k) && EventsOf(polls + [poll], k) == EventsOf(polls, k)
  {
    if k > 0 { PrefixSame(polls, poll, k - 1); }
  }

  lemma PollAppended(polls: seq<Poll>, poll: Poll)
    ensures var k := |polls|;
      var p := StateAt(polls, k);
      && StateAt(polls + [poll], k + 1) == Observe(p, poll)
      && EventsOf(polls + [poll], k + 1) == EventsOf(polls, k) +
         (if Announces(p, poll) then [DescribeTransition(poll.snapshot, p.lastSequence)] else [])
  {
    PrefixSame(polls, poll, |polls|);
  }
}
