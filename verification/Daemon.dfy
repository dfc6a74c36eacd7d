/** The control cycle of safeedged.cpp: telegram round trip, dual-channel supervisor, transition
    counter. The panel, the e-stop and acknowledge inputs of each cycle, is the only environment. */
module Daemon {
  import opened Bits
  import opened Telegram
  import opened Supervisor
  import Crc32
  import CrcValues
  import Receiver
  import DualChannel

  const WATCHDOG := 50_000_000
  const TOLERANCE := 5_000_000
  const LIMITS := Limits(10.0, NegInf, PosInf, false, 0.5, 0.1, 500_000_000)
  const ADDRESS := SafetyAddress(0x0011, 0x2200, 0xDEADBEEF)
  const PAYLOAD: seq<byte> := [1, 2, 3, 4, 5, 6, 7, 8]

  datatype Panel = Panel(emergencyStop: bool, acknowledge: bool)

  datatype State = State(
    number: uint32, receiver: Receiver.State, dual: DualChannel.Dual, accepted: nat, rejected: nat,
    lastState: SafetyState, lastTorque: bool, sequence: nat)

  predicate FrequencyInRange(hz: int) { 0 < hz <= 100_000 }

  function Period(hz: int): (period: int)
    requires FrequencyInRange(hz)
    ensures period >= 10_000
  {
    1_000_000_000 / hz
  }

  function Start(): State {
    State(1, Receiver.Fresh(ADDRESS, WATCHDOG), DualChannel.Initial(LIMITS, TOLERANCE), 0, 0, SafeTorqueOff, false, 0)
  }

  // ------------------------------------------------------------------ one cycle

  function InputsFor(p: Panel, communicationOk: bool, now: int): Inputs {
    Inputs(5.0, 0.0, p.emergencyStop, communicationOk, true, true, RequestSls, p.acknowledge, now)
  }

  function Sent(d: State): seq<byte> { Frame(ADDRESS, PAYLOAD, 0, d.number) }

  function Verdict(d: State, now: int): Receiver.ReceiveStatus {
    Receiver.Judge(d.receiver, Sent(d), now, MAX_PAYLOAD_BYTES)
  }

  function Received(d: State, now: int): Receiver.State {
    Receiver.AfterReceive(d.receiver, Sent(d), now, MAX_PAYLOAD_BYTES)
  }

  function SampleFor(d: State, p: Panel, now: int): DualChannel.Sample {
    var x := InputsFor(p, !Received(d, now).safe, now);
    DualChannel.Sample(x, x, now)
  }

  function Outcome(d: State, p: Panel, now: int): Outputs { DualChannel.Decision(d.dual, SampleFor(d, p, now)) }

  predicate Changes(d: State, p: Panel, now: int) {
    Outcome(d, p, now).state != d.lastState || Outcome(d, p, now).torque != d.lastTorque
  }

  function Cycle(d: State, p: Panel, now: int): State {
    State(
      Succ(d.number), Received(d, now), DualChannel.Evaluate(d.dual, SampleFor(d, p, now)),
      d.accepted + (if Verdict(d, now) == Receiver.Valid then 1 else 0),
      d.rejected + (if Verdict(d, now) == Receiver.Valid then 0 else 1),
      Outcome(d, p, now).state, Outcome(d, p, now).torque,
      if Changes(d, p, now) then (d.sequence + 1) % TWO64 else d.sequence)
  }

  /** The daemon before cycle n. */
  function Before(period: int, panels: seq<Panel>, n: nat): State
    requires n <= |panels|
  {
    if n == 0 then Start() else Cycle(Before(period, panels, n - 1), panels[n - 1], period * (n - 1))
  }

  function OutputsAt(period: int, panels: seq<Panel>, n: nat): Outputs
    requires n < |panels|
  {
    Outcome(Before(period, panels, n), panels[n], period * n)
  }

  /** The same loop if cycle n were given the time times[n]. */
  function BeforeBy(times: seq<int>, panels: seq<Panel>, n: nat): State
    requires n <= |panels| <= |times|
  {
    if n == 0 then Start() else Cycle(BeforeBy(times, panels, n - 1), panels[n - 1], times[n - 1])
  }

  function OutputsBy(times: seq<int>, panels: seq<Panel>, n: nat): Outputs
    requires n < |panels| <= |times|
  {
    Outcome(BeforeBy(times, panels, n), panels[n], times[n])
  }

  /** The times the loop does give: period times index. */
  function Ticks(period: int, count: nat): (r: seq<int>)
    ensures |r| == count && forall i | 0 <= i < count :: r[i] == period * i
  {
    seq(count, i => period * i)
  }

  lemma {:induction false} BeforeIsBy(period: int, panels: seq<Panel>, n: nat)
    requires n <= |panels|
    ensures Before(period, panels, n) == BeforeBy(Ticks(period, |panels|), panels, n)
    ensures n < |panels| ==> OutputsAt(period, panels, n) == OutputsBy(Ticks(period, |panels|), panels, n)
  {
    hide Cycle;
    hide Outcome;
    if n > 0 { BeforeIsBy(period, panels, n - 1); }
  }

  // ------------------------------------------------------------------ the first telegram

  /** The first telegram of every run, byte for byte. */
  lemma FirstTelegram()
    ensures Sent(Start()) == [1, 2, 3, 4, 5, 6, 7, 8, 0, 1, 0, 0, 0, 0xE2, 0xF1, 0x9D, 0x41]
  {
    hide Crc32.Checksum;
    FirstBody();
    FirstParameters();
    CrcValues.FrameChecksum(PAYLOAD, [0] + Le32(1), Link(ADDRESS) + Le32(ADDRESS.signature));
    assert Hashed(ADDRESS, Body(PAYLOAD, 0, 1)) == PAYLOAD + ([0] + Le32(1)) + (Link(ADDRESS) + Le32(ADDRESS.signature));
    FirstSum();
  }

  lemma FirstBody()
    ensures [0] + Le32(1) == [0, 1, 0, 0, 0]
  {}

  lemma FirstParameters()
    ensures Link(ADDRESS) + Le32(ADDRESS.signature) == [0x11, 0, 0, 0x22, 0xEF, 0xBE, 0xAD, 0xDE]
  {}

  lemma FirstSum()
    ensures Le32(0x419D_F1E2) == [0xE2, 0xF1, 0x9D, 0x41]
  {}

  // ------------------------------------------------------------------ the telegram leg

  /** No two of the first n cycles are further apart than the watchdog. */
  predicate InTime(times: seq<int>, n: nat)
    requires n <= |times|
  {
    forall j | 1 <= j < n :: times[j] - times[j - 1] <= WATCHDOG
  }

  lemma InTimeStep(times: seq<int>, n: nat)
    requires 1 <= n < |times|
    ensures InTime(times, n + 1) <==> InTime(times, n) && times[n] - times[n - 1] <= WATCHDOG
  {}

  /** What the telegram leg has reached before cycle n, with the last telegram accepted at `last`. */
  predicate InStep(d: State, last: int, n: nat) {
    && d.number == NumberAt(1, n) && !d.receiver.safe
    && d.receiver.address == ADDRESS && d.receiver.watchdog == WATCHDOG
    && (if n == 0 then !d.receiver.synchronised
        else d.receiver.synchronised && d.receiver.lastNumber == NumberAt(1, n - 1) && d.receiver.lastValid == last)
  }

  lemma IntactAccepted(d: State, last: int, n: nat, now: int)
    requires InStep(d, last, n) && (n == 0 || now - last <= WATCHDOG)
    ensures Verdict(d, now) == Receiver.Valid
  {
    hide CrcMatches;
    hide Frame;
    ParsedFrame(ADDRESS, PAYLOAD, 0, d.number);
    if n > 0 {
      Receiver.IntactTelegramJudged(d.receiver, 1, n - 1, n, PAYLOAD, 0, now, MAX_PAYLOAD_BYTES);
    }
  }

  lemma InStepKept(d: State, p: Panel, last: int, n: nat, now: int)
    requires InStep(d, last, n) && (n == 0 || now - last <= WATCHDOG)
    ensures InStep(Cycle(d, p, now), now, n + 1)
  {
    hide CrcMatches;
    hide Frame;
    hide Receiver.Judge;
    hide DualChannel.Evaluate;
    hide DualChannel.Decision;
    ParsedFrame(ADDRESS, PAYLOAD, 0, d.number);
    IntactAccepted(d, last, n, now);
  }

  /** While no two cycles are further apart than the watchdog, every telegram of every run is accepted. */
  lemma {:induction false} AllAccepted(times: seq<int>, panels: seq<Panel>, n: nat)
    requires n <= |panels| <= |times| && InTime(times, n)
    ensures InStep(BeforeBy(times, panels, n), if n == 0 then 0 else times[n - 1], n)
    ensures BeforeBy(times, panels, n).accepted == n && BeforeBy(times, panels, n).rejected == 0
  {
    hide InStep;
    hide Verdict;
    hide Received;
    hide Outcome;
    if n == 0 {
      StartsInStep();
    } else {
      AllAccepted(times, panels, n - 1);
      var d, last := BeforeBy(times, panels, n - 1), if n == 1 then 0 else times[n - 2];
      assert n > 1 ==> times[n - 1] - times[n - 2] <= WATCHDOG;
      InStepKept(d, panels[n - 1], last, n - 1, times[n - 1]);
      IntactAccepted(d, last, n - 1, times[n - 1]);
    }
  }

  lemma StartsInStep()
    ensures InStep(Start(), 0, 0)
  {}

  /** Once two cycles are, the receiver is latched for good. */
  lemma {:induction false} LatchedOnceLate(times: seq<int>, panels: seq<Panel>, n: nat)
    requires n <= |panels| <= |times| && !InTime(times, n)
    ensures BeforeBy(times, panels, n).receiver.safe
  {
    hide Cycle;
    hide InStep;
    InTimeStep(times, n - 1);
    var d := BeforeBy(times, panels, n - 1);
    if !InTime(times, n - 1) {
      LatchedOnceLate(times, panels, n - 1);
      LatchKept(d, panels[n - 1], times[n - 1]);
    } else {
      AllAccepted(times, panels, n - 1);
      LateLatches(d, panels[n - 1], times[n - 2], n - 1, times[n - 1]);
    }
  }

  lemma LatchKept(d: State, p: Panel, now: int)
    requires d.receiver.safe
    ensures Cycle(d, p, now).receiver.safe
  {
    hide CrcMatches;
    hide Outcome;
    hide DualChannel.Evaluate;
  }

  lemma LateLatches(d: State, p: Panel, last: int, n: nat, now: int)
    requires n > 0 && InStep(d, last, n) && now - last > WATCHDOG
    ensures Cycle(d, p, now).receiver.safe
  {
    hide CrcMatches;
    hide Frame;
    hide Outcome;
    hide DualChannel.Evaluate;
    ParsedFrame(ADDRESS, PAYLOAD, 0, d.number);
  }

  /** Before cycle n: one telegram accepted, the second one late, the receiver latched ever since. */
  predicate TimedOut(d: State, n: nat) {
    && d.receiver.safe && d.receiver.lastFault == Receiver.UnacceptableDelay && d.receiver.diagnostics.timeouts == 1
    && d.accepted == 1 && d.rejected == n - 1
  }

  lemma SecondTelegramLate(d: State, p: Panel, period: int)
    requires InStep(d, 0, 1) && period > WATCHDOG
    requires d.accepted == 1 && d.rejected == 0 && d.receiver.diagnostics.timeouts == 0
    ensures TimedOut(Cycle(d, p, period), 2)
  {
    hide CrcMatches;
    hide Frame;
    hide Outcome;
    hide DualChannel.Evaluate;
    ParsedFrame(ADDRESS, PAYLOAD, 0, d.number);
  }

  lemma TimedOutKept(d: State, p: Panel, now: int, n: nat)
    requires TimedOut(d, n)
    ensures TimedOut(Cycle(d, p, now), n + 1)
  {
    hide CrcMatches;
    hide Outcome;
    hide DualChannel.Evaluate;
  }

  lemma FirstTelegramCounted(p: Panel)
    ensures var d := Cycle(Start(), p, 0); d.accepted == 1 && d.rejected == 0 && d.receiver.diagnostics.timeouts == 0
  {
    hide CrcMatches;
    hide Frame;
    hide Outcome;
    hide DualChannel.Evaluate;
    ParsedFrame(ADDRESS, PAYLOAD, 0, 1);
  }

  /** A longer period: the watchdog latches at cycle 1, and nothing is accepted after cycle 0. */
  lemma {:induction false} LatchedFromCycleOne(period: int, panels: seq<Panel>, n: nat)
    requires 2 <= n <= |panels| && period > WATCHDOG
    ensures TimedOut(Before(period, panels, n), n)
  {
    hide InStep;
    hide Cycle;
    hide TimedOut;
    if n == 2 {
      StartsInStep();
      InStepKept(Start(), panels[0], 0, 0, 0);
      FirstTelegramCounted(panels[0]);
      assert Before(period, panels, 1) == Cycle(Start(), panels[0], 0);
      SecondTelegramLate(Before(period, panels, 1), panels[1], period);
    } else {
      LatchedFromCycleOne(period, panels, n - 1);
      TimedOutKept(Before(period, panels, n - 1), panels[n - 1], period * (n - 1), n - 1);
    }
  }

  lemma PeriodWithinWatchdog(hz: int)
    requires FrequencyInRange(hz)
    ensures Period(hz) <= WATCHDOG <==> hz >= 20
  {}

  lemma TicksInTime(period: int, count: nat, n: nat)
    requires n <= count
    ensures InTime(Ticks(period, count), n) <==> n <= 1 || period <= WATCHDOG
  {
    hide Ticks;
    var times := Ticks(period, count);
    forall j | 1 <= j < n ensures times[j] - times[j - 1] == period {
      assert period * j - period * (j - 1) == period;
    }
    if n > 1 { assert times[1] - times[0] == period; }
  }

  // ------------------------------------------------------------------ the supervisor leg

  /** Both channels in the same state, nothing under suspicion. */
  predicate Agreeing(d: DualChannel.Dual, m: Machine) {
    d.a == m && d.b == m && d.disagreementSince == -1 && !d.latched
  }

  lemma AgreeingStep(d: DualChannel.Dual, m: Machine, x: Inputs, now: int)
    requires Agreeing(d, m)
    ensures Agreeing(DualChannel.Evaluate(d, DualChannel.Sample(x, x, now)), Step(m, x))
    ensures DualChannel.Decision(d, DualChannel.Sample(x, x, now)) == OutputsOf(Step(m, x))
  {
    hide Step;
    hide OutputsOf;
    hide DualChannel.Combine;
    DualChannel.CombineWithItself(OutputsOf(Step(m, x)));
  }

  /** An acknowledged, e-stop-free cycle strictly between e and n. */
  predicate ReleasedBetween(panels: seq<Panel>, e: int, n: int)
    requires n <= |panels|
  {
    exists a :: 0 <= a && e < a < n && panels[a].acknowledge && !panels[a].emergencyStop
  }

  /** Every e-stop before cycle n has been released since. */
  predicate Clear(panels: seq<Panel>, n: int)
    requires n <= |panels|
  {
    forall e | 0 <= e < n && panels[e].emergencyStop :: ReleasedBetween(panels, e, n)
  }

  lemma ClearStep(panels: seq<Panel>, n: nat)
    requires n < |panels|
    ensures Clear(panels, n + 1) <==> !panels[n].emergencyStop && (panels[n].acknowledge || Clear(panels, n))
  {
    if Clear(panels, n + 1) && !panels[n].acknowledge {
      forall e | 0 <= e < n && panels[e].emergencyStop ensures ReleasedBetween(panels, e, n) {
        assert ReleasedBetween(panels, e, n + 1);
      }
    }
    if !panels[n].emergencyStop && (panels[n].acknowledge || Clear(panels, n)) {
      forall e | 0 <= e < n && panels[e].emergencyStop ensures ReleasedBetween(panels, e, n + 1) {
        if !panels[n].acknowledge {
          var a :| 0 <= a && e < a < n && panels[a].acknowledge && !panels[a].emergencyStop;
          assert panels[a].acknowledge;
        }
      }
    }
  }

  /** The supervisor's state before cycle n, as the panel history determines it. */
  predicate Expected(m: Machine, clear: bool, n: nat) {
    && m.limits == LIMITS
    && (if !clear then m.state == SafeTorqueOff && m.fault == EmergencyStop
        else m.fault == NoFault && (if n == 0 then m.state == SelfTest else m.state in {SafeTorqueOff, LimitedSpeed}))
  }

  lemma ExpectedStep(m: Machine, clear: bool, n: nat, p: Panel, now: int)
    requires Expected(m, clear, n)
    ensures var x := InputsFor(p, true, now);
      && Expected(Step(m, x), !p.emergencyStop && (p.acknowledge || clear), n + 1)
      && OutputsOf(Step(m, x)) == ShownFor(n > 0 && !p.emergencyStop && clear, !p.emergencyStop && (p.acknowledge || clear))
  {}

  /** Limited speed at 10, or everything off with the e-stop as the only fault there can be. */
  function ShownFor(permitted: bool, clear: bool): Outputs {
    if permitted then Outputs(true, true, Finite(10.0), false, LimitedSpeed, NoFault, false)
    else Outputs(false, false, Finite(0.0), true, SafeTorqueOff, if clear then NoFault else EmergencyStop, !clear)
  }

  lemma {:induction false} SupervisorFollowsPanel(times: seq<int>, panels: seq<Panel>, n: nat)
    requires n <= |panels| <= |times| && InTime(times, n)
    ensures var d := BeforeBy(times, panels, n).dual;
      Agreeing(d, d.a) && Expected(d.a, Clear(panels, n), n)
  {
    hide Step;
    hide DualChannel.Evaluate;
    hide Expected;
    hide Verdict;
    hide Received;
    hide Changes;
    hide Clear;
    if n == 0 {
      StartsExpected(panels);
    } else {
      SupervisorFollowsPanel(times, panels, n - 1);
      CommunicationOk(times, panels, n);
      var d := BeforeBy(times, panels, n - 1).dual;
      var x := InputsFor(panels[n - 1], true, times[n - 1]);
      AgreeingStep(d, d.a, x, times[n - 1]);
      ExpectedStep(d.a, Clear(panels, n - 1), n - 1, panels[n - 1], times[n - 1]);
      ClearStep(panels, n - 1);
    }
  }

  lemma StartsExpected(panels: seq<Panel>)
    ensures Agreeing(Start().dual, Start().dual.a) && Expected(Start().dual.a, Clear(panels, 0), 0)
  {}

  /** The receiver has not latched in cycle n - 1 exactly if all telegrams so far came in time. */
  lemma CommunicationOk(times: seq<int>, panels: seq<Panel>, n: nat)
    requires 0 < n <= |panels| <= |times|
    ensures !Received(BeforeBy(times, panels, n - 1), times[n - 1]).safe <==> InTime(times, n)
  {
    hide Received;
    hide InTime;
    if InTime(times, n) { AllAccepted(times, panels, n); } else { LatchedOnceLate(times, panels, n); }
  }

  // ------------------------------------------------------------------ end to end

  /** What the operator has to have done for torque in cycle n: it is not the first, the e-stop is clear in
      it, and each earlier e-stop cycle is followed, strictly before n, by an acknowledged e-stop-free one. */
  predicate PanelPermits(panels: seq<Panel>, n: nat)
    requires n < |panels|
  {
    n >= 1 && !panels[n].emergencyStop && Clear(panels, n)
  }

  /** For every sequence of times and of operator inputs: cycle n permits torque if and only if the panel
      permits it and no two cycles up to n are further apart than the watchdog. */
  lemma TorqueGivenTimes(times: seq<int>, panels: seq<Panel>, n: nat)
    requires n < |panels| <= |times|
    ensures OutputsBy(times, panels, n).torque <==> PanelPermits(panels, n) && InTime(times, n + 1)
    ensures InTime(times, n + 1) ==> OutputsBy(times, panels, n) == ShownFor(PanelPermits(panels, n), Clear(panels, n + 1))
  {
    hide Step;
    hide OutputsOf;
    hide DualChannel.Evaluate;
    hide DualChannel.Decision;
    hide BeforeBy;
    hide Received;
    hide Clear;
    hide InTime;
    CommunicationOk(times, panels, n + 1);
    var d := BeforeBy(times, panels, n);
    if InTime(times, n + 1) {
      ShorterInTime(times, n);
      SupervisorFollowsPanel(times, panels, n);
      AgreeingStep(d.dual, d.dual.a, InputsFor(panels[n], true, times[n]), times[n]);
      ExpectedStep(d.dual.a, Clear(panels, n), n, panels[n], times[n]);
      ClearStep(panels, n);
    } else {
      NoTorqueOnDemand(d.dual, SampleFor(d, panels[n], times[n]));
    }
  }

  lemma ShorterInTime(times: seq<int>, n: nat)
    requires n < |times| && InTime(times, n + 1)
    ensures InTime(times, n)
  {}

  /** So at 20 Hz and above, whatever the operator does, every telegram is accepted and torque follows the
      panel. Torque comes only with limited speed. */
  lemma TorqueFollowsPanel(hz: int, panels: seq<Panel>, n: nat)
    requires 20 <= hz <= 100_000 && n < |panels|
    ensures Before(Period(hz), panels, n + 1).accepted == n + 1 && Before(Period(hz), panels, n + 1).rejected == 0
    ensures var o := OutputsAt(Period(hz), panels, n);
      && (o.torque <==> PanelPermits(panels, n))
      && o == ShownFor(PanelPermits(panels, n), Clear(panels, n + 1))
      && o.state == (if o.torque then LimitedSpeed else SafeTorqueOff)
  {
    hide BeforeBy;
    hide OutputsBy;
    hide Before;
    hide OutputsAt;
    hide InStep;
    hide InTime;
    hide PanelPermits;
    var period := Period(hz);
    PeriodWithinWatchdog(hz);
    TicksInTime(period, |panels|, n + 1);
    BeforeIsBy(period, panels, n);
    BeforeIsBy(period, panels, n + 1);
    AllAccepted(Ticks(period, |panels|), panels, n + 1);
    TorqueGivenTimes(Ticks(period, |panels|), panels, n);
  }

  /** Below 20 Hz torque is never permitted: the first cycle is the self test, and from cycle 1 on
      the telegram leg is latched by its watchdog, which no operator input releases. */
  lemma TorqueNeverBelow20(hz: int, panels: seq<Panel>, n: nat)
    requires 1 <= hz < 20 && n < |panels|
    ensures !OutputsAt(Period(hz), panels, n).torque
    ensures n >= 1 ==> TimedOut(Before(Period(hz), panels, n + 1), n + 1)
  {
    hide BeforeBy;
    hide OutputsBy;
    hide Before;
    hide OutputsAt;
    hide TimedOut;
    hide InTime;
    hide Clear;
    var period := Period(hz);
    PeriodWithinWatchdog(hz);
    TicksInTime(period, |panels|, n + 1);
    BeforeIsBy(period, panels, n);
    TorqueGivenTimes(Ticks(period, |panels|), panels, n);
    if n >= 1 { LatchedFromCycleOne(period, panels, n + 1); }
  }

  lemma NoTorqueOnDemand(d: DualChannel.Dual, x: DualChannel.Sample)
    requires Demand(x.xa)
    ensures !DualChannel.Decision(d, x).torque
  {}

  // ------------------------------------------------------------------ the transition counter

  /** What a consumer of the snapshot sees of cycle n; before any cycle, torque off. */
  function Shown(period: int, panels: seq<Panel>, n: int): (SafetyState, bool)
    requires n < |panels|
  {
    if n < 0 then (SafeTorqueOff, false)
    else (OutputsAt(period, panels, n).state, OutputsAt(period, panels, n).torque)
  }

  /** How many of the first n cycles showed something else than the cycle before. */
  function Transitions(period: int, panels: seq<Panel>, n: nat): nat
    requires n <= |panels|
  {
    if n == 0 then 0
    else Transitions(period, panels, n - 1)
         + (if Shown(period, panels, n - 1) != Shown(period, panels, n - 2) then 1 else 0)
  }

  lemma CycleSequence(d: State, p: Panel, now: int)
    ensures var next := Cycle(d, p, now);
      && next.sequence == (if Changes(d, p, now) then (d.sequence + 1) % TWO64 else d.sequence)
      && next.lastState == Outcome(d, p, now).state && next.lastTorque == Outcome(d, p, now).torque
  {
    hide Outcome;
    hide Changes;
    hide Verdict;
    hide Received;
    hide SampleFor;
    hide DualChannel.Evaluate;
  }

  /** The published sequence number counts the visible transitions, modulo 2^64. */
  lemma {:induction false} SequenceCountsTransitions(period: int, panels: seq<Panel>, n: nat)
    requires n <= |panels|
    ensures Before(period, panels, n).sequence == Transitions(period, panels, n) % TWO64
    ensures (Before(period, panels, n).lastState, Before(period, panels, n).lastTorque) == Shown(period, panels, n - 1)
  {
    hide Outcome;
    hide Cycle;
    if n > 0 {
      SequenceCountsTransitions(period, panels, n - 1);
      CycleSequence(Before(period, panels, n - 1), panels[n - 1], period * (n - 1));
      WrappedSuccessor(Transitions(period, panels, n - 1));
    }
  }

  /** A cycle is counted exactly when it shows something else than the cycle before. */
  lemma ChangesAreShown(period: int, panels: seq<Panel>, n: nat)
    requires n < |panels|
    ensures Changes(Before(period, panels, n), panels[n], period * n) <==>
            Shown(period, panels, n) != Shown(period, panels, n - 1)
  {
    hide Before;
    hide Outcome;
    SequenceCountsTransitions(period, panels, n);
  }

  /** At 20 Hz and above every transition switches the torque permission. */
  lemma {:induction false} TransitionsSwitchTorque(hz: int, panels: seq<Panel>, n: nat)
    requires 20 <= hz <= 100_000 && n < |panels|
    ensures OutputsAt(Period(hz), panels, n).torque <==> Transitions(Period(hz), panels, n + 1) % 2 == 1
  {
    hide OutputsAt;
    hide Before;
    hide Clear;
    TorqueFollowsPanel(hz, panels, n);
    if n > 0 {
      TransitionsSwitchTorque(hz, panels, n - 1);
      TorqueFollowsPanel(hz, panels, n - 1);
    }
  }

  /** So torque is on exactly when the published sequence number is odd. */
  lemma OddMeansTorque(hz: int, panels: seq<Panel>, n: nat)
    requires 20 <= hz <= 100_000 && n < |panels|
    ensures OutputsAt(Period(hz), panels, n).torque <==> Before(Period(hz), panels, n + 1).sequence % 2 == 1
  {
    hide OutputsAt;
    hide Before;
    hide Transitions;
    TransitionsSwitchTorque(hz, panels, n);
    SequenceCountsTransitions(Period(hz), panels, n + 1);
    SameParity(Transitions(Period(hz), panels, n + 1));
  }

  // ------------------------------------------------------------------ the loop's own objects

  class ControlLoop {
    const sender: SafetySender
    const receiver: Receiver.SafetyReceiver
    const supervisor: DualChannel.DualChannelSupervisor
    const telegram: Buffer
    const payloadOut: array<byte>
    var accepted: nat
    var rejected: nat
    var lastState: SafetyState
    var lastTorque: bool
    var sequence: nat
    /** When the last transition was noted. */
    var lastTransition: uint64

    ghost function Parts(): set<object> {
      {sender, receiver, supervisor, supervisor.channelA, supervisor.channelB, telegram, telegram.bytes, payloadOut}
    }

    ghost predicate Valid()
      reads this, telegram
    {
      && sender.Valid() && sender.address == ADDRESS && receiver.Ready() && supervisor.Valid() && telegram.Valid()
      && payloadOut.Length == MAX_PAYLOAD_BYTES && payloadOut != telegram.bytes
    }

    function View(): State
      reads this, sender, receiver, supervisor, supervisor.channelA, supervisor.channelB
    {
      State(sender.number, receiver.View(), supervisor.View(), accepted, rejected, lastState, lastTorque, sequence)
    }

    constructor (table: seq<Crc32.Word>, started: uint64)
      requires Crc32.IsTable(table)
      ensures Valid() && View() == Start() && lastTransition == started && fresh(Parts())
    {
      supervisor := new DualChannel.DualChannelSupervisor(LIMITS, TOLERANCE);
      sender := new SafetySender(ADDRESS, table);
      receiver := new Receiver.SafetyReceiver(ADDRESS, WATCHDOG, table);
      telegram := new Buffer();
      payloadOut := new byte[MAX_PAYLOAD_BYTES](_ => 0);
      accepted, rejected := 0, 0;
      lastState, lastTorque, sequence, lastTransition := SafeTorqueOff, false, 0, started;
    }

    /** The telegram round trip of one cycle. */
    method Exchange(now: int)
      requires Valid()
      modifies this`accepted, this`rejected, sender, receiver, telegram, telegram.bytes, payloadOut
      ensures Valid()
      ensures var d := old(View());
        View() == d.(number := Succ(d.number), receiver := Received(d, now),
                     accepted := d.accepted + (if Verdict(d, now) == Receiver.Valid then 1 else 0),
                     rejected := d.rejected + (if Verdict(d, now) == Receiver.Valid then 0 else 1))
    {
      hide Frame;
      hide Receiver.Judge;
      hide Receiver.AfterReceive;
      hide Crc32.IsTable;
      var encoded := sender.Encode(PAYLOAD, 0, telegram);
      if encoded {
        var status, _, _ := receiver.Receive(telegram.View(), now, payloadOut);
        if status == Receiver.Valid {
          accepted := accepted + 1;
        } else {
          rejected := rejected + 1;
        }
      }
    }

    /** `clock` is what the monotonic clock reads, should the cycle turn out to be a transition. */
    method RunCycle(period: int, index: nat, panel: Panel, clock: uint64) returns (outputs: Outputs)
      requires Valid()
      modifies this, Parts()
      ensures Valid() && View() == Cycle(old(View()), panel, period * index)
      ensures outputs == Outcome(old(View()), panel, period * index)
      ensures lastTransition == if Changes(old(View()), panel, period * index) then clock else old(lastTransition)
    {
      hide Verdict;
      hide Received;
      hide InputsFor;
      hide Succ;
      hide DualChannel.Evaluate;
      hide DualChannel.Decision;
      hide DualChannel.Initial;
      hide Crc32.IsTable;
      var now := period * index;
      Exchange(now);
      var x := InputsFor(panel, !receiver.safeState, now);
      outputs := supervisor.EvaluateChannels(x, x, now);
      NoteTransition(outputs, clock);
    }

    method NoteTransition(outputs: Outputs, clock: uint64)
      modifies this`lastState, this`lastTorque, this`sequence, this`lastTransition
      ensures lastState == outputs.state && lastTorque == outputs.torque
      ensures if old(lastState) != outputs.state || old(lastTorque) != outputs.torque
              then sequence == (old(sequence) + 1) % TWO64 && lastTransition == clock
              else sequence == old(sequence) && lastTransition == old(lastTransition)
    {
      if outputs.state != lastState || outputs.torque != lastTorque {
        lastState := outputs.state;
        lastTorque := outputs.torque;
        lastTransition := clock;
        sequence := (sequence + 1) % TWO64;
      }
    }
  }
}
