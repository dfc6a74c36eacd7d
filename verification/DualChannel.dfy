/** The 1oo2D supervisor of dual_channel.cpp, and what holds over every run of it. */
module DualChannel {
  import opened Supervisor
  import SupervisorRuns

  datatype Diagnostics = Diagnostics(disagreeingCycles: nat, discrepancyFaults: nat, longestDisagreement: int)

  datatype Dual = Dual(
    tolerance: int, a: Machine, b: Machine, disagreementSince: int, latched: bool, diagnostics: Diagnostics)

  const NO_DIAGNOSTICS := Diagnostics(0, 0, 0)

  function Initial(limits: Limits, tolerance: int): Dual {
    Dual(tolerance, PowerOn(limits), PowerOn(limits), -1, false, NO_DIAGNOSTICS)
  }

  // ------------------------------------------------------------------ one cycle

  function Lower(a: Extended, b: Extended): Extended { if a.AtMost(b) then a else b }

  function SaferState(a: SafetyState, b: SafetyState): SafetyState { if b.Rank() < a.Rank() then b else a }

  function Combine(a: Outputs, b: Outputs): Outputs {
    Outputs(
      a.torque && b.torque, a.motion && b.motion, Lower(a.speedLimit, b.speedLimit), a.brake || b.brake,
      SaferState(a.state, b.state), if a.fault != NoFault then a.fault else b.fault, a.latched || b.latched)
  }

  const SAFE_OUTPUTS := Outputs(false, false, Finite(0.0), true, SafeTorqueOff, ChannelDiscrepancy, true)

  datatype Sample = Sample(xa: Inputs, xb: Inputs, now: int)

  function Since(d: Dual, x: Sample): int { if d.disagreementSince < 0 then x.now else d.disagreementSince }

  predicate Disagrees(d: Dual, x: Sample) { Step(d.a, x.xa).state != Step(d.b, x.xb).state }

  predicate Trips(d: Dual, x: Sample) { Disagrees(d, x) && x.now - Since(d, x) > d.tolerance && !d.latched }

  function Max(a: int, b: int): int { if a < b then b else a }

  function Evaluate(d: Dual, x: Sample): Dual {
    var a, b := Step(d.a, x.xa), Step(d.b, x.xb);
    var trips, disagrees := Trips(d, x), Disagrees(d, x);
    var a' := if trips then EnterSto(a, ChannelDiscrepancy) else a;
    var b' := if trips then EnterSto(b, ChannelDiscrepancy) else b;
    var s := d.diagnostics;
    Dual(
      d.tolerance, a', b', if disagrees then Since(d, x) else -1,
      (d.latched || trips) && (a'.fault != NoFault || b'.fault != NoFault),
      Diagnostics(
        s.disagreeingCycles + (if disagrees then 1 else 0), s.discrepancyFaults + (if trips then 1 else 0),
        if disagrees then Max(s.longestDisagreement, x.now - Since(d, x)) else s.longestDisagreement))
  }

  function Decision(d: Dual, x: Sample): Outputs {
    if Evaluate(d, x).latched then SAFE_OUTPUTS
    else Combine(OutputsOf(Step(d.a, x.xa)), OutputsOf(Step(d.b, x.xb)))
  }

  class DualChannelSupervisor {
    const tolerance: int
    const channelA: SafetyStateMachine
    const channelB: SafetyStateMachine
    var disagreementSince: int
    var latched: bool
    var diagnostics: Diagnostics

    ghost predicate Valid() { channelA != channelB }

    function View(): Dual
      reads this, channelA, channelB
    {
      Dual(tolerance, channelA.View(), channelB.View(), disagreementSince, latched, diagnostics)
    }

    constructor (limits: Limits, tolerance: int)
      ensures Valid() && View() == Initial(limits, tolerance) && fresh(channelA) && fresh(channelB)
      ensures channelA.state == channelB.state == SelfTest && this.tolerance == tolerance && !latched
    {
      this.tolerance := tolerance;
      channelA := new SafetyStateMachine(limits);
      channelB := new SafetyStateMachine(limits);
      disagreementSince := -1;
      latched := false;
      diagnostics := NO_DIAGNOSTICS;
    }

    method Reset()
      requires Valid()
      modifies this, channelA, channelB
      ensures View() == Dual(tolerance, PowerOn(old(channelA.limits)), PowerOn(old(channelB.limits)), -1, false, NO_DIAGNOSTICS)
    {
      channelA.Reset();
      channelB.Reset();
      disagreementSince := -1;
      latched := false;
      diagnostics := NO_DIAGNOSTICS;
    }

    method EvaluateChannels(xa: Inputs, xb: Inputs, now: int) returns (outputs: Outputs)
      requires Valid()
      modifies this, channelA, channelB
      ensures View() == Evaluate(old(View()), Sample(xa, xb, now))
      ensures outputs == Decision(old(View()), Sample(xa, xb, now))
    {
      hide Step;
      hide OutputsOf;
      var a := channelA.Evaluate(xa);
      var b := channelB.Evaluate(xb);
      OutputsShowState(channelA.View());
      OutputsShowState(channelB.View());
      if a.state != b.state {
        diagnostics := diagnostics.(disagreeingCycles := diagnostics.disagreeingCycles + 1);
        if disagreementSince < 0 {
          disagreementSince := now;
        }
        var duration := now - disagreementSince;
        diagnostics := diagnostics.(longestDisagreement := Max(diagnostics.longestDisagreement, duration));
        if duration > tolerance && !latched {
          latched := true;
          diagnostics := diagnostics.(discrepancyFaults := diagnostics.discrepancyFaults + 1);
          channelA.ForceFault(ChannelDiscrepancy);
          channelB.ForceFault(ChannelDiscrepancy);
        }
      } else {
        disagreementSince := -1;
      }
      if latched {
        if channelA.fault == NoFault && channelB.fault == NoFault {
          latched := false;
        } else {
          return SAFE_OUTPUTS;
        }
      }
      return Combine(a, b);
    }
  }

  lemma OutputsShowState(m: Machine)
    ensures OutputsOf(m).state == m.state
  {}

  // ------------------------------------------------------------------ runs

  function At(d: Dual, run: seq<Sample>, k: nat): Dual
    requires k <= |run|
  {
    if k == 0 then d else Evaluate(At(d, run, k - 1), run[k - 1])
  }

  function DecisionAt(d: Dual, run: seq<Sample>, k: nat): Outputs
    requires k < |run|
  {
    Decision(At(d, run, k), run[k])
  }

  /** Kept by every cycle: a channel fault means torque off, and a set latch means some channel is
      still faulted. */
  predicate Invariant(d: Dual) {
    && SupervisorRuns.Consistent(d.a) && SupervisorRuns.Consistent(d.b)
    && (d.latched ==> d.a.fault != NoFault || d.b.fault != NoFault)
  }

  lemma InvariantStep(d: Dual, x: Sample)
    requires Invariant(d)
    ensures Invariant(Evaluate(d, x))
  {
    hide Step;
    SupervisorRuns.ConsistentStep(d.a, SupervisorRuns.Cycle(x.xa));
    SupervisorRuns.ConsistentStep(d.b, SupervisorRuns.Cycle(x.xb));
  }

  lemma {:induction false} InvariantKept(limits: Limits, tolerance: int, run: seq<Sample>, k: nat)
    requires k <= |run|
    ensures Invariant(At(Initial(limits, tolerance), run, k)) && At(Initial(limits, tolerance), run, k).tolerance == tolerance
  {
    hide Evaluate;
    if k > 0 {
      InvariantKept(limits, tolerance, run, k - 1);
      InvariantStep(At(Initial(limits, tolerance), run, k - 1), run[k - 1]);
      ToleranceKept(At(Initial(limits, tolerance), run, k - 1), run[k - 1]);
    }
  }

  lemma ToleranceKept(d: Dual, x: Sample)
    ensures Evaluate(d, x).tolerance == d.tolerance
  {}

  /** 1oo2: torque needs both channels to permit it, free of faults and demands, and no latch. */
  lemma TorqueNeedsBoth(limits: Limits, tolerance: int, run: seq<Sample>, k: nat)
    requires k < |run| && DecisionAt(Initial(limits, tolerance), run, k).torque
    ensures var d := At(Initial(limits, tolerance), run, k + 1);
            && PermitsTorque(d.a.state) && PermitsTorque(d.b.state)
            && d.a.fault == d.b.fault == NoFault && !d.latched
    ensures !Demand(run[k].xa) && !Demand(run[k].xb)
  {
    hide Evaluate;
    InvariantKept(limits, tolerance, run, k);
    TorqueStep(At(Initial(limits, tolerance), run, k), run[k]);
  }

  lemma TorqueStep(d: Dual, x: Sample)
    requires Invariant(d) && Decision(d, x).torque
    ensures var e := Evaluate(d, x);
            && PermitsTorque(e.a.state) && PermitsTorque(e.b.state) && e.a.fault == e.b.fault == NoFault && !e.latched
    ensures !Demand(x.xa) && !Demand(x.xb)
  {
    hide Step;
    SupervisorRuns.ConsistentStep(d.a, SupervisorRuns.Cycle(x.xa));
    SupervisorRuns.ConsistentStep(d.b, SupervisorRuns.Cycle(x.xb));
    DemandStops(d.a, x.xa);
    DemandStops(d.b, x.xb);
  }

  lemma DemandStops(m: Machine, x: Inputs)
    ensures Demand(x) ==> !PermitsTorque(Step(m, x).state)
  {}

  /** The cycle that clears the latch never permits torque. */
  lemma ClearingCycleStops(limits: Limits, tolerance: int, run: seq<Sample>, k: nat)
    requires k < |run|
    requires At(Initial(limits, tolerance), run, k).latched && !At(Initial(limits, tolerance), run, k + 1).latched
    ensures !DecisionAt(Initial(limits, tolerance), run, k).torque
  {
    hide Evaluate;
    InvariantKept(limits, tolerance, run, k);
    var d := At(Initial(limits, tolerance), run, k);
    FaultedChannelStops(d.a, run[k].xa);
    FaultedChannelStops(d.b, run[k].xb);
  }

  lemma FaultedChannelStops(m: Machine, x: Inputs)
    ensures m.fault != NoFault ==> !PermitsTorque(Step(m, x).state)
  {}

  // ------------------------------------------------------------------ what is reported

  /** While the discrepancy is latched nothing is permitted, the brake is on, and the report says why. */
  lemma LatchedDecision(d: Dual, x: Sample)
    requires Evaluate(d, x).latched
    ensures var o := Decision(d, x);
      && !o.torque && !o.motion && o.speedLimit == Finite(0.0) && o.brake
      && o.state == SafeTorqueOff && o.fault == ChannelDiscrepancy && o.latched
  {
    hide Step;
  }

  /** The decision of every cycle in terms of the two channels after it. */
  predicate Reports(o: Outputs, e: Dual) {
    && (o.latched <==> e.a.fault != NoFault || e.b.fault != NoFault)
    && o.fault == (if e.latched then ChannelDiscrepancy else if e.a.fault != NoFault then e.a.fault else e.b.fault)
    && (o.torque <==> e.a.state.Rank() >= 2 && e.b.state.Rank() >= 2)
    && (o.motion <==> e.a.state.Rank() >= 4 && e.b.state.Rank() >= 4)
    && (o.brake <==> !o.torque)
    && o.state == (if e.latched then SafeTorqueOff else if e.b.state.Rank() < e.a.state.Rank() then e.b.state else e.a.state)
    && (!e.latched ==>
          && o.speedLimit.AtMost(LimitIn(e.a)) && o.speedLimit.AtMost(LimitIn(e.b))
          && (o.speedLimit == LimitIn(e.a) || o.speedLimit == LimitIn(e.b)))
  }

  function LimitIn(m: Machine): Extended {
    match m.state
    case Operational => PosInf
    case LimitedSpeed => Finite(m.limits.limitedSpeed)
    case _ => Finite(0.0)
  }

  lemma DecisionReports(limits: Limits, tolerance: int, run: seq<Sample>, k: nat)
    requires k < |run|
    ensures Reports(DecisionAt(Initial(limits, tolerance), run, k), At(Initial(limits, tolerance), run, k + 1))
  {
    hide Evaluate;
    hide Decision;
    hide Reports;
    InvariantKept(limits, tolerance, run, k);
    ReportStep(At(Initial(limits, tolerance), run, k), run[k]);
  }

  lemma ReportStep(d: Dual, x: Sample)
    requires Invariant(d)
    ensures Reports(Decision(d, x), Evaluate(d, x))
  {
    hide Step;
    var a, b := Step(d.a, x.xa), Step(d.b, x.xb);
    SupervisorRuns.ConsistentStep(d.a, SupervisorRuns.Cycle(x.xa));
    SupervisorRuns.ConsistentStep(d.b, SupervisorRuns.Cycle(x.xb));
    if Evaluate(d, x).latched { LatchedDecision(d, x); }
  }

  /** The cycle that sets the latch stops both channels. Each keeps the fault it had, or else reports the
      discrepancy. */
  lemma TripForces(d: Dual, x: Sample, side: Side)
    requires !d.latched && Evaluate(d, x).latched
    ensures var m := Step(Channel(d, side), Own(x, side));
            Channel(Evaluate(d, x), side) ==
            m.(state := SafeTorqueOff, fault := if m.fault == NoFault then ChannelDiscrepancy else m.fault)
  {
    hide Step;
  }

  /** Unless the cycle sets the latch, the channels disagree in it exactly if their states differ after it. */
  lemma DisagreementSeen(d: Dual, x: Sample)
    requires d.latched || !Evaluate(d, x).latched
    ensures Disagrees(d, x) <==> Evaluate(d, x).a.state != Evaluate(d, x).b.state
  {
    hide Step;
  }

  function Disagreements(d: Dual, run: seq<Sample>, k: nat): nat
    requires k <= |run|
  {
    if k == 0 then 0 else Disagreements(d, run, k - 1) + (if DisagreesAt(d, run, k - 1) then 1 else 0)
  }

  function LatchSettings(d: Dual, run: seq<Sample>, k: nat): nat
    requires k <= |run|
  {
    if k == 0 then 0 else LatchSettings(d, run, k - 1) + (if LatchSetAt(d, run, k - 1) then 1 else 0)
  }

  /** The two counters count the disagreeing cycles and the settings of the latch. */
  lemma {:induction false} DiagnosticsCount(limits: Limits, tolerance: int, run: seq<Sample>, k: nat)
    requires k <= |run|
    ensures var d := Initial(limits, tolerance);
      && At(d, run, k).diagnostics.disagreeingCycles == Disagreements(d, run, k)
      && At(d, run, k).diagnostics.discrepancyFaults == LatchSettings(d, run, k)
  {
    hide Evaluate;
    hide Disagrees;
    if k > 0 {
      DiagnosticsCount(limits, tolerance, run, k - 1);
      CountStep(At(Initial(limits, tolerance), run, k - 1), run[k - 1]);
    }
  }

  lemma CountStep(d: Dual, x: Sample)
    ensures var e := Evaluate(d, x);
      && e.diagnostics.disagreeingCycles == d.diagnostics.disagreeingCycles + (if Disagrees(d, x) then 1 else 0)
      && e.diagnostics.discrepancyFaults == d.diagnostics.discrepancyFaults + (if !d.latched && e.latched then 1 else 0)
  {
    hide Step;
  }

  // ------------------------------------------------------------------ recovery from a discrepancy

  datatype Side = SideA | SideB

  function Channel(d: Dual, side: Side): Machine { if side == SideA then d.a else d.b }

  function Own(x: Sample, side: Side): Inputs { if side == SideA then x.xa else x.xb }

  /** One cycle of one channel: only its own acknowledgement releases it, and torque comes on only with
      its own request for motion, from torque off and without a fault. */
  lemma ChannelStep(d: Dual, x: Sample, side: Side)
    requires Invariant(d)
    ensures var m, e := Channel(d, side), SupervisorRuns.Cycle(Own(x, side));
            var n := Channel(Evaluate(d, x), side);
            && (m.fault != NoFault && n.fault == NoFault ==> SupervisorRuns.Acknowledges(e) && n.state == SafeTorqueOff)
            && (!PermitsTorque(m.state) && PermitsTorque(n.state) ==> SupervisorRuns.Enables(e))
  {
    hide Step;
    var m, e := Channel(d, side), SupervisorRuns.Cycle(Own(x, side));
    if m.fault != NoFault && Step(m, e.x).fault == NoFault { SupervisorRuns.Released(m, e); }
    if !PermitsTorque(m.state) && PermitsTorque(Step(m, e.x).state) { SupervisorRuns.Energised(m, e); }
  }

  /** The first cycle after i in which the channel is released. */
  lemma {:induction false} FirstRelease(d: Dual, run: seq<Sample>, side: Side, i: nat, k: nat) returns (a: nat)
    requires i < k <= |run| && Channel(At(d, run, i), side).fault != NoFault && Channel(At(d, run, k), side).fault == NoFault
    ensures i <= a < k && Channel(At(d, run, a + 1), side).fault == NoFault
    ensures forall j | i <= j <= a :: Channel(At(d, run, j), side).fault != NoFault
    decreases k - i
  {
    hide Evaluate;
    a := i;
    if Channel(At(d, run, i + 1), side).fault != NoFault { a := FirstRelease(d, run, side, i + 1, k); }
  }

  lemma {:induction false} LastEnable(d: Dual, run: seq<Sample>, side: Side, i: nat, k: nat) returns (r: nat)
    requires i < k <= |run|
    requires !PermitsTorque(Channel(At(d, run, i), side).state) && PermitsTorque(Channel(At(d, run, k), side).state)
    ensures i <= r < k
    ensures !PermitsTorque(Channel(At(d, run, r), side).state) && PermitsTorque(Channel(At(d, run, r + 1), side).state)
    decreases k
  {
    hide Evaluate;
    r := k - 1;
    if PermitsTorque(Channel(At(d, run, k - 1), side).state) { r := LastEnable(d, run, side, i, k - 1); }
  }

  lemma ChannelRestart(limits: Limits, tolerance: int, run: seq<Sample>, i: nat, k: nat, side: Side)
    returns (a: nat, r: nat)
    requires i < k < |run| && LatchSetAt(Initial(limits, tolerance), run, i)
    requires DecisionAt(Initial(limits, tolerance), run, k).torque
    ensures i < a < r <= k
    ensures SupervisorRuns.Acknowledges(SupervisorRuns.Cycle(Own(run[a], side)))
    ensures SupervisorRuns.Enables(SupervisorRuns.Cycle(Own(run[r], side)))
    ensures forall j | i <= j <= a :: !DecisionAt(Initial(limits, tolerance), run, j).torque
  {
    hide Evaluate;
    hide Decision;
    var d := Initial(limits, tolerance);
    TorqueNeedsBoth(limits, tolerance, run, k);
    LatchForcesBoth(At(d, run, i), run[i]);
    a := FirstRelease(d, run, side, i + 1, k + 1);
    InvariantKept(limits, tolerance, run, a);
    ChannelStep(At(d, run, a), run[a], side);
    r := LastEnable(d, run, side, a + 1, k + 1);
    InvariantKept(limits, tolerance, run, r);
    ChannelStep(At(d, run, r), run[r], side);
    forall j | i <= j <= a ensures !DecisionAt(d, run, j).torque {
      assert j < a ==> Channel(At(d, run, j + 1), side).fault != NoFault;
      if DecisionAt(d, run, j).torque { TorqueNeedsBoth(limits, tolerance, run, j); }
    }
  }

  /** Once the discrepancy is latched, each channel on its own has to be acknowledged in a demand-free
      cycle and then, strictly later, be asked for motion, before torque is permitted again. Until the
      later of the two acknowledgements, and in it, no cycle permits torque. */
  lemma DiscrepancyRestart(limits: Limits, tolerance: int, run: seq<Sample>, i: nat, k: nat)
    returns (a: nat, enabledA: nat, b: nat, enabledB: nat)
    requires i < k < |run| && LatchSetAt(Initial(limits, tolerance), run, i)
    requires DecisionAt(Initial(limits, tolerance), run, k).torque
    ensures i < a < enabledA <= k && i < b < enabledB <= k
    ensures SupervisorRuns.Acknowledges(SupervisorRuns.Cycle(run[a].xa))
    ensures SupervisorRuns.Acknowledges(SupervisorRuns.Cycle(run[b].xb))
    ensures SupervisorRuns.Enables(SupervisorRuns.Cycle(run[enabledA].xa))
    ensures SupervisorRuns.Enables(SupervisorRuns.Cycle(run[enabledB].xb))
    ensures forall j | i <= j <= Max(a, b) :: !DecisionAt(Initial(limits, tolerance), run, j).torque
  {
    hide At;
    hide Decision;
    a, enabledA := ChannelRestart(limits, tolerance, run, i, k, SideA);
    b, enabledB := ChannelRestart(limits, tolerance, run, i, k, SideB);
  }

  /** No more than that is needed. In this run channel A is asked for motion again before channel B is even
      acknowledged, and in the cycle that permits torque its request is for torque off. */
  function OneSided(): (run: seq<Sample>)
    ensures |run| == 7
  {
    var idle := Inputs(1.0, 0.0, false, true, true, true, RequestSto, false, 0);
    var go, ack := idle.(request := NoRestriction), idle.(acknowledge := true);
    [Sample(idle, idle, 0), Sample(go, idle, 1), Sample(go, idle, 20), Sample(ack, idle, 21),
     Sample(go, idle, 22), Sample(go.(request := RequestSs1), ack, 23), Sample(idle, go, 24)]
  }

  const ONE_SIDED_LIMITS := Limits(10.0, NegInf, PosInf, false, 0.5, 0.1, 500)

  /** Where that run stands after its first k samples. */
  predicate OneSidedAfter(d: Dual, k: nat) {
    var off := PowerOn(ONE_SIDED_LIMITS).(state := SafeTorqueOff);
    var faulted := off.(fault := ChannelDiscrepancy);
    var (a, b, since, latched) :=
      match k
      case 0 => (PowerOn(ONE_SIDED_LIMITS), PowerOn(ONE_SIDED_LIMITS), -1, false)
      case 1 => (off, off, -1, false)
      case 2 => (off.(state := Operational), off, 1, false)
      case 3 => (faulted, faulted, 1, true)
      case 4 => (off, faulted, -1, true)
      case 5 => (off.(state := Operational), faulted, 22, true)
      case _ => (off.(state := Stopping), off, 22, false);
    d.tolerance == 10 && d.a == a && d.b == b && d.disagreementSince == since && d.latched == latched
  }

  lemma OneSidedStep(d: Dual, k: nat)
    requires k < 6 && OneSidedAfter(d, k)
    ensures OneSidedAfter(Evaluate(d, OneSided()[k]), k + 1)
  {}

  lemma {:induction false} OneSidedReached(k: nat)
    requires k <= 6
    ensures OneSidedAfter(At(Initial(ONE_SIDED_LIMITS, 10), OneSided(), k), k)
  {
    hide Evaluate;
    hide OneSided;
    if k > 0 {
      OneSidedReached(k - 1);
      OneSidedStep(At(Initial(ONE_SIDED_LIMITS, 10), OneSided(), k - 1), k - 1);
    }
  }

  lemma OneSidedLast(d: Dual)
    requires OneSidedAfter(d, 6)
    ensures Decision(d, OneSided()[6]).torque
  {}

  lemma OneSidedRestart()
    ensures var d, run := Initial(ONE_SIDED_LIMITS, 10), OneSided();
            && LatchSetAt(d, run, 2) && DecisionAt(d, run, 6).torque
            && SupervisorRuns.Acknowledges(SupervisorRuns.Cycle(run[5].xb))
            && !SupervisorRuns.Enables(SupervisorRuns.Cycle(run[5].xa))
            && !SupervisorRuns.Enables(SupervisorRuns.Cycle(run[6].xa))
  {
    hide At;
    hide Decision;
    OneSidedReached(2);
    OneSidedReached(3);
    OneSidedReached(6);
    OneSidedLast(At(Initial(ONE_SIDED_LIMITS, 10), OneSided(), 6));
  }

  lemma LatchForcesBoth(d: Dual, x: Sample)
    requires !d.latched && Evaluate(d, x).latched
    ensures Evaluate(d, x).a.fault != NoFault && Evaluate(d, x).b.fault != NoFault
  {
    hide Step;
  }

  // ------------------------------------------------------------------ discrepancy timing

  predicate DisagreesAt(d: Dual, run: seq<Sample>, j: nat) { j < |run| && Disagrees(At(d, run, j), run[j]) }

  /** A maximal unbroken run of disagreeing cycles that reaches j began at i. */
  predicate UnbrokenSince(d: Dual, run: seq<Sample>, i: nat, j: nat) {
    && i <= j < |run| && (forall t | i <= t <= j :: DisagreesAt(d, run, t))
    && (i > 0 ==> !DisagreesAt(d, run, i - 1))
  }

  predicate NonNegativeTimes(run: seq<Sample>) { forall j | 0 <= j < |run| :: run[j].now >= 0 }

  lemma SinceStep(d: Dual, x: Sample)
    ensures Evaluate(d, x).disagreementSince == if Disagrees(d, x) then Since(d, x) else -1
  {}

  lemma TimerCleared(d: Dual, run: seq<Sample>, k: nat)
    requires d.disagreementSince == -1 && k <= |run| && (k > 0 ==> !DisagreesAt(d, run, k - 1))
    ensures At(d, run, k).disagreementSince == -1
  {
    hide Evaluate;
    if k > 0 { SinceStep(At(d, run, k - 1), run[k - 1]); }
  }

  /** The timer holds the time of the cycle in which the current disagreement began. */
  lemma {:induction false} TimerHoldsStart(d: Dual, run: seq<Sample>, i: nat, j: nat)
    requires d.disagreementSince == -1 && NonNegativeTimes(run) && UnbrokenSince(d, run, i, j)
    ensures Since(At(d, run, j), run[j]) == run[i].now
    decreases j
  {
    hide Evaluate;
    hide Disagrees;
    if j == i {
      TimerCleared(d, run, i);
    } else {
      TimerHoldsStart(d, run, i, j - 1);
      assert DisagreesAt(d, run, j - 1);
      SinceStep(At(d, run, j - 1), run[j - 1]);
    }
  }

  predicate LatchSetAt(d: Dual, run: seq<Sample>, j: nat) {
    j < |run| && !At(d, run, j).latched && At(d, run, j + 1).latched
  }

  lemma LatchStep(d: Dual, x: Sample)
    requires !d.latched
    ensures Evaluate(d, x).latched <==> Trips(d, x)
  {
    hide Step;
  }

  /** The latch is set in cycle j exactly when it was clear and the disagreement that reaches j has
      lasted longer than the tolerance, measured from the cycle in which it began. */
  lemma DiscrepancyTiming(limits: Limits, tolerance: int, run: seq<Sample>, i: nat, j: nat)
    requires NonNegativeTimes(run) && UnbrokenSince(Initial(limits, tolerance), run, i, j)
    ensures LatchSetAt(Initial(limits, tolerance), run, j) <==>
            !At(Initial(limits, tolerance), run, j).latched && run[j].now - run[i].now > tolerance
  {
    hide Evaluate;
    hide Disagrees;
    var d := Initial(limits, tolerance);
    InvariantKept(limits, tolerance, run, j);
    TimerHoldsStart(d, run, i, j);
    assert DisagreesAt(d, run, j);
    if !At(d, run, j).latched { LatchStep(At(d, run, j), run[j]); }
  }

  /** Agreement never sets it, and with a tolerance of zero or more neither does the first
      disagreeing cycle. */
  lemma LatchNeedsHistory(limits: Limits, tolerance: int, run: seq<Sample>, j: nat)
    requires NonNegativeTimes(run) && LatchSetAt(Initial(limits, tolerance), run, j)
    ensures DisagreesAt(Initial(limits, tolerance), run, j)
    ensures tolerance >= 0 ==> j > 0 && DisagreesAt(Initial(limits, tolerance), run, j - 1)
  {
    hide Evaluate;
    hide Disagrees;
    var d := Initial(limits, tolerance);
    LatchStep(At(d, run, j), run[j]);
    if j == 0 || !DisagreesAt(d, run, j - 1) {
      assert UnbrokenSince(d, run, j, j);
      DiscrepancyTiming(limits, tolerance, run, j, j);
    }
  }

  /** So a tolerance of zero does not fault the first disagreeing cycle: here one channel passes its
      self test a cycle before the other. */
  lemma ZeroToleranceExample(limits: Limits, now: int)
    requires now >= 0
    ensures var passed := Inputs(0.0, 0.0, false, true, true, true, RequestSto, false, now);
            var run := [Sample(passed, passed.(selfTestPassed := false), now)];
            DisagreesAt(Initial(limits, 0), run, 0) && !At(Initial(limits, 0), run, 1).latched
  {
    var passed := Inputs(0.0, 0.0, false, true, true, true, RequestSto, false, now);
    var run := [Sample(passed, passed.(selfTestPassed := false), now)];
    var d := Initial(limits, 0);
    assert At(d, run, 0) == d && At(d, run, 1) == Evaluate(d, run[0]);
  }

  /** The recorded longest disagreement is the maximum over all unbroken runs so far. */
  lemma LongestIsMaximum(d: Dual, run: seq<Sample>, k: nat)
    requires d.disagreementSince == -1 && d.diagnostics.longestDisagreement == 0 && NonNegativeTimes(run) && k <= |run|
    ensures var m := At(d, run, k).diagnostics.longestDisagreement;
            && m >= 0
            && (forall i: nat, j: nat | j < k && UnbrokenSince(d, run, i, j) :: run[j].now - run[i].now <= m)
            && (m == 0 || exists i: nat, j: nat :: j < k && UnbrokenSince(d, run, i, j) && run[j].now - run[i].now == m)
  {
    hide At;
    hide UnbrokenSince;
    LongestBounds(d, run, k);
    LongestAttained(d, run, k);
  }

  lemma {:induction false} LongestBounds(d: Dual, run: seq<Sample>, k: nat)
    requires d.disagreementSince == -1 && d.diagnostics.longestDisagreement == 0 && NonNegativeTimes(run) && k <= |run|
    ensures At(d, run, k).diagnostics.longestDisagreement >= 0
    ensures forall i: nat, j: nat | j < k && UnbrokenSince(d, run, i, j) ::
              run[j].now - run[i].now <= At(d, run, k).diagnostics.longestDisagreement
  {
    hide Evaluate;
    hide Disagrees;
    hide Since;
    hide UnbrokenSince;
    if k > 0 {
      LongestBounds(d, run, k - 1);
      LongestStep(At(d, run, k - 1), run[k - 1]);
      forall i: nat | UnbrokenSince(d, run, i, k - 1)
        ensures i < |run| && Since(At(d, run, k - 1), run[k - 1]) == run[i].now && DisagreesAt(d, run, k - 1)
      {
        StartInRange(d, run, i, k - 1);
        TimerHoldsStart(d, run, i, k - 1);
      }
    }
  }

  lemma {:induction false} LongestAttained(d: Dual, run: seq<Sample>, k: nat)
    requires d.disagreementSince == -1 && d.diagnostics.longestDisagreement == 0 && NonNegativeTimes(run) && k <= |run|
    ensures var m := At(d, run, k).diagnostics.longestDisagreement;
            m == 0 || exists i: nat, j: nat :: j < k && UnbrokenSince(d, run, i, j) && run[j].now - run[i].now == m
  {
    hide Evaluate;
    hide Disagrees;
    hide Since;
    hide UnbrokenSince;
    if k > 0 {
      LongestAttained(d, run, k - 1);
      LongestStep(At(d, run, k - 1), run[k - 1]);
      if DisagreesAt(d, run, k - 1) {
        var i := FindStart(d, run, k - 1);
        StartInRange(d, run, i, k - 1);
        TimerHoldsStart(d, run, i, k - 1);
      }
    }
  }

  lemma StartInRange(d: Dual, run: seq<Sample>, i: nat, j: nat)
    requires UnbrokenSince(d, run, i, j)
    ensures i <= j < |run| && DisagreesAt(d, run, j)
  {}

  lemma LongestStep(d: Dual, x: Sample)
    ensures Evaluate(d, x).diagnostics.longestDisagreement ==
            if Disagrees(d, x) then Max(d.diagnostics.longestDisagreement, x.now - Since(d, x))
            else d.diagnostics.longestDisagreement
  {}

  lemma {:induction false} FindStart(d: Dual, run: seq<Sample>, j: nat) returns (i: nat)
    requires DisagreesAt(d, run, j)
    ensures UnbrokenSince(d, run, i, j)
    decreases j
  {
    hide Evaluate;
    hide Disagrees;
    i := j;
    if j > 0 && DisagreesAt(d, run, j - 1) { i := FindStart(d, run, j - 1); }
  }

  // ------------------------------------------------------------------ agreement with one channel

  /** Fed identical inputs, the pair behaves exactly as a single supervisor would. */
  lemma {:induction false} IdenticalInputs(limits: Limits, tolerance: int, run: seq<Sample>, single: seq<SupervisorRuns.Event>, k: nat)
    requires |single| == |run| && k <= |run|
    requires forall j | 0 <= j < |run| :: run[j].xa == run[j].xb && single[j] == SupervisorRuns.Cycle(run[j].xa)
    ensures var m := SupervisorRuns.At(PowerOn(limits), single, k);
            At(Initial(limits, tolerance), run, k) == Initial(limits, tolerance).(a := m, b := m)
    ensures k < |run| ==> DecisionAt(Initial(limits, tolerance), run, k)
                          == OutputsOf(SupervisorRuns.At(PowerOn(limits), single, k + 1))
  {
    hide Step;
    hide OutputsOf;
    hide Combine;
    var d := Initial(limits, tolerance);
    if k > 0 { IdenticalInputs(limits, tolerance, run, single, k - 1); }
    if k < |run| { CombineWithItself(OutputsOf(SupervisorRuns.At(PowerOn(limits), single, k + 1))); }
  }

  lemma CombineWithItself(o: Outputs)
    ensures Combine(o, o) == o
  {}

  /** Combining two states grants exactly the permissions of the more restrictive one. The speed
      limit is the one exception: it does so exactly unless a negative limited speed meets a state
      without motion. */
  lemma CombineGrantsSafer(limits: Limits, m: Machine, n: Machine)
    requires m.limits == n.limits == limits
    ensures var safer := if n.state.Rank() < m.state.Rank() then n else m;
            var c, o := Combine(OutputsOf(m), OutputsOf(n)), OutputsOf(safer);
            && c.torque == o.torque && c.motion == o.motion && c.brake == o.brake && c.state == o.state
            && (c.speedLimit == o.speedLimit <==>
                limits.limitedSpeed >= 0.0 ||
                ((m.state == LimitedSpeed ==> PermitsMotion(n.state)) && (n.state == LimitedSpeed ==> PermitsMotion(m.state))))
  {}
}
