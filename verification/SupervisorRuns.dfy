/** Properties of the supervisor over whole runs: limits fixed, no reset. */
module SupervisorRuns {
  import opened Supervisor

  /** A cycle, or a fault forced from outside by the dual-channel comparison. */
  datatype Event = Cycle(x: Inputs) | Force(reason: FaultReason)

  function Apply(m: Machine, e: Event): Machine {
    match e
    case Cycle(x) => Step(m, x)
    case Force(reason) => EnterSto(m, reason)
  }

  function At(m: Machine, run: seq<Event>, k: nat): Machine
    requires k <= |run|
  {
    if k == 0 then m else Apply(At(m, run, k - 1), run[k - 1])
  }

  predicate Latched(m: Machine) { m.fault != NoFault }

  predicate Torque(m: Machine) { PermitsTorque(m.state) }

  predicate Acknowledges(e: Event) { e.Cycle? && !Demand(e.x) && e.x.acknowledge }

  predicate Enables(e: Event) { e.Cycle? && !Demand(e.x) && e.x.request in {NoRestriction, RequestSls} }

  /** A latched fault always means torque off. */
  predicate Consistent(m: Machine) { Latched(m) ==> m.state == SafeTorqueOff }

  lemma ConsistentStep(m: Machine, e: Event)
    requires Consistent(m)
    ensures Consistent(Apply(m, e)) && Apply(m, e).limits == m.limits
  {}

  lemma {:induction false} StaysConsistent(m: Machine, run: seq<Event>, k: nat)
    requires k <= |run| && Consistent(m)
    ensures Consistent(At(m, run, k)) && At(m, run, k).limits == m.limits
  {
    hide Apply;
    if k > 0 {
      StaysConsistent(m, run, k - 1);
      ConsistentStep(At(m, run, k - 1), run[k - 1]);
    }
  }

  // ------------------------------------------------------------------ what a cycle does, from samples and limits alone

  predicate Quiet(x: Inputs) { !x.emergencyStop && x.communicationOk && x.heartbeatOk }

  predicate Overspeed(m: Machine, x: Inputs) { x.speed > m.limits.limitedSpeed }

  predicate Moving(m: Machine, x: Inputs) { x.speed > m.limits.standstillSpeed }

  predicate OffReference(m: Machine, x: Inputs) {
    x.position - m.reference > m.limits.standstillWindow || m.reference - x.position > m.limits.standstillWindow
  }

  predicate OutsideBand(limits: Limits, position: real) {
    || limits.positionMin.PosInf? || (limits.positionMin.Finite? && position < limits.positionMin.value)
    || limits.positionMax.NegInf? || (limits.positionMax.Finite? && position > limits.positionMax.value)
  }

  /** Which monitor the sample trips in the current state, and with what fault. */
  predicate TripsSpeed(m: Machine, x: Inputs) { m.state == LimitedSpeed && Overspeed(m, x) }

  predicate TripsStandstill(m: Machine, x: Inputs) { m.state == OperatingStop && (OffReference(m, x) || Moving(m, x)) }

  predicate TripsStopTime(m: Machine, x: Inputs) {
    m.state == Stopping && Moving(m, x) && x.timestamp - m.stopStarted > m.limits.stopTimeLimit
  }

  predicate TripsPosition(m: Machine, x: Inputs) {
    && m.limits.positionMonitoring && OutsideBand(m.limits, x.position)
    && (m.state == Operational || (m.state == LimitedSpeed && !Overspeed(m, x)))
  }

  predicate TripsAny(m: Machine, x: Inputs) {
    TripsSpeed(m, x) || TripsStandstill(m, x) || TripsStopTime(m, x) || TripsPosition(m, x)
  }

  /** A demand takes torque off whatever else is the case, and latches its cause unless one is latched. */
  lemma DemandTrips(m: Machine, x: Inputs)
    requires !Quiet(x)
    ensures Step(m, x) == m.(
      state := SafeTorqueOff,
      fault := if m.fault != NoFault then m.fault else if x.emergencyStop then EmergencyStop
               else if !x.communicationOk then CommunicationFault else WatchdogTimeout)
  {}

  /** A tripped monitor takes torque off and latches its own fault, whatever is requested or acknowledged:
      monitors come before requests. */
  lemma MonitorsTrip(m: Machine, x: Inputs)
    requires Quiet(x) && !Latched(m)
    ensures TripsSpeed(m, x) ==> Step(m, x) == m.(state := SafeTorqueOff, fault := SpeedLimitExceeded)
    ensures TripsStandstill(m, x) ==> Step(m, x) == m.(state := SafeTorqueOff, fault := StandstillDeviation)
    ensures TripsStopTime(m, x) ==> Step(m, x) == m.(state := SafeTorqueOff, fault := StopTimeExceeded)
    ensures TripsPosition(m, x) ==> Step(m, x) == m.(state := SafeTorqueOff, fault := PositionLimitExceeded)
  {}

  /** Where each request leads from each state when nothing demands, is latched or trips. */
  lemma RequestTargets(m: Machine, x: Inputs)
    requires Quiet(x) && !Latched(m) && !TripsAny(m, x)
    ensures Step(m, x) ==
      match m.state
      case SelfTest => if x.selfTestPassed then m.(state := SafeTorqueOff) else m
      case Stopping => if Moving(m, x) then m else m.(state := SafeTorqueOff)
      case SafeTorqueOff =>
        (match x.request
         case NoRestriction => m.(state := Operational)
         case RequestSto => m
         case RequestSs1 => m
         case RequestSos => m.(fault := InvalidRequest)
         case RequestSls => if Overspeed(m, x) then m.(fault := SpeedLimitExceeded) else m.(state := LimitedSpeed))
      case OperatingStop =>
        (match x.request
         case NoRestriction => m.(state := Operational)
         case RequestSto => m.(state := SafeTorqueOff)
         case RequestSs1 => m.(state := Stopping, stopStarted := x.timestamp)
         case RequestSos => m
         case RequestSls =>
           if Overspeed(m, x) then m.(state := SafeTorqueOff, fault := SpeedLimitExceeded) else m.(state := LimitedSpeed))
      case LimitedSpeed =>
        (match x.request
         case NoRestriction => m.(state := Operational)
         case RequestSto => m.(state := SafeTorqueOff)
         case RequestSs1 => m.(state := Stopping, stopStarted := x.timestamp)
         case RequestSos =>
           if Moving(m, x) then m.(state := SafeTorqueOff, fault := InvalidRequest)
           else m.(state := OperatingStop, reference := x.position)
         case RequestSls => m)
      case Operational =>
        (match x.request
         case NoRestriction => m
         case RequestSto => m.(state := SafeTorqueOff)
         case RequestSs1 => m.(state := Stopping, stopStarted := x.timestamp)
         case RequestSos =>
           if Moving(m, x) then m.(state := SafeTorqueOff, fault := InvalidRequest)
           else m.(state := OperatingStop, reference := x.position)
         case RequestSls =>
           if Overspeed(m, x) then m.(state := SafeTorqueOff, fault := SpeedLimitExceeded) else m.(state := LimitedSpeed))
  {}

  /** Exactly which cycles latch which fault. */
  lemma LatchCauses(m: Machine, x: Inputs)
    requires !Latched(m)
    ensures var f := Step(m, x).fault;
      && (f == EmergencyStop <==> x.emergencyStop)
      && (f == CommunicationFault <==> !x.emergencyStop && !x.communicationOk)
      && (f == WatchdogTimeout <==> !x.emergencyStop && x.communicationOk && !x.heartbeatOk)
      && (f == StandstillDeviation <==> Quiet(x) && TripsStandstill(m, x))
      && (f == StopTimeExceeded <==> Quiet(x) && TripsStopTime(m, x))
      && (f == PositionLimitExceeded <==> Quiet(x) && TripsPosition(m, x))
      && (f == SpeedLimitExceeded <==>
            Quiet(x) && Overspeed(m, x) &&
            (m.state == LimitedSpeed
             || (!TripsAny(m, x) && x.request == RequestSls && m.state in {SafeTorqueOff, OperatingStop, Operational})))
      && (f == InvalidRequest <==>
            Quiet(x) && !TripsAny(m, x) && x.request == RequestSos &&
            (m.state == SafeTorqueOff || (m.state in {LimitedSpeed, Operational} && Moving(m, x))))
      && f != SelfTestFailed && f != ChannelDiscrepancy
  {}

  /** What the outputs say in each state; the fault reported is the one latched. */
  lemma OutputsReport(m: Machine)
    ensures var o := OutputsOf(m);
      && o.state == m.state && o.fault == m.fault && (o.latched <==> m.fault != NoFault)
      && (o.torque <==> m.state in {Stopping, OperatingStop, LimitedSpeed, Operational}) && (o.brake <==> !o.torque)
      && (o.motion <==> m.state in {LimitedSpeed, Operational})
      && o.speedLimit == (if m.state == Operational then PosInf else if m.state == LimitedSpeed then Finite(m.limits.limitedSpeed)
                          else Finite(0.0))
  {}

  // ------------------------------------------------------------------ what a cycle may grant

  /** The least restrictive state a request asks for. */
  function Ceiling(request: SafetyFunction): SafetyState {
    match request
    case RequestSto => SafeTorqueOff
    case RequestSs1 => Stopping
    case RequestSos => OperatingStop
    case RequestSls => LimitedSpeed
    case NoRestriction => Operational
  }

  /** The self test or a controlled stop goes on for another cycle, whatever is requested. */
  predicate StillBusy(m: Machine, x: Inputs) {
    && !Demand(x) && !Latched(m)
    && match m.state
       case SelfTest => !x.selfTestPassed
       case Stopping => x.speed > m.limits.standstillSpeed && !StopOverdue(m, x)
       case _ => false
  }

  /** A request takes effect in its own cycle, whatever the state and the samples, unless the self
      test or a controlled stop goes on; then nothing changes. A demand always latches torque off. A
      state is left for a less restrictive one with torque only on a request for motion. */
  lemma RequestBounds(m: Machine, x: Inputs)
    requires Consistent(m)
    ensures if StillBusy(m, x) then Step(m, x) == m else Step(m, x).state.Rank() <= Ceiling(x.request).Rank()
    ensures Demand(x) ==> Step(m, x).state == SafeTorqueOff && Latched(Step(m, x))
    ensures Torque(Step(m, x)) && Step(m, x).state.Rank() > m.state.Rank() ==> Enables(Cycle(x))
  {}

  /** So a request for torque off is honoured exactly unless one of the two goes on, and it never
      latches a fault of its own. */
  lemma TorqueOffRequest(m: Machine, x: Inputs)
    requires Consistent(m) && x.request == RequestSto
    ensures Step(m, x).state == SafeTorqueOff <==> !StillBusy(m, x)
    ensures Latched(Step(m, x)) && !Latched(m) ==> Demand(x) || Violation(m, x) != NoFault
  {}

  /** Not from anywhere: here the axis is stopping and still moving, torque off is requested, and
      torque stays on. */
  lemma TorqueOffDelayedExample(limits: Limits)
    requires limits.stopTimeLimit >= 0 && !limits.positionMonitoring
    ensures var go := Inputs(limits.standstillSpeed + 1.0, 0.0, false, true, true, true, NoRestriction, false, 0);
            var run := [Cycle(go), Cycle(go), Cycle(go.(request := RequestSs1)), Cycle(go.(request := RequestSto))];
            At(PowerOn(limits), run, 4).state == Stopping && Torque(At(PowerOn(limits), run, 4))
  {
    var m := PowerOn(limits);
    var go := Inputs(limits.standstillSpeed + 1.0, 0.0, false, true, true, true, NoRestriction, false, 0);
    var run := [Cycle(go), Cycle(go), Cycle(go.(request := RequestSs1)), Cycle(go.(request := RequestSto))];
    assert At(m, run, 1) == m.(state := SafeTorqueOff);
    assert At(m, run, 2) == m.(state := Operational);
    assert At(m, run, 3) == m.(state := Stopping, stopStarted := 0);
  }

  /** The states are ordered by what they grant: a less restrictive one permits at least as much, and a
      latched fault permits nothing. */
  lemma PermissionsOrdered(m: Machine, n: Machine)
    requires Consistent(m) && m.state.Rank() <= n.state.Rank()
    ensures OutputsOf(m).torque ==> OutputsOf(n).torque
    ensures OutputsOf(m).motion ==> OutputsOf(m).torque && OutputsOf(n).motion
    ensures OutputsOf(m).brake <==> !OutputsOf(m).torque
    ensures !OutputsOf(m).motion ==> OutputsOf(m).speedLimit == Finite(0.0)
    ensures OutputsOf(m).latched ==> !OutputsOf(m).torque && OutputsOf(m).brake && OutputsOf(m).fault != NoFault
    ensures m.limits == n.limits && m.limits.limitedSpeed >= 0.0 ==> OutputsOf(m).speedLimit.AtMost(OutputsOf(n).speedLimit)
  {}

  // ------------------------------------------------------------------ restart after a fault

  /** Only a demand-free acknowledge cycle releases the latch, and it leaves torque off. */
  lemma Released(m: Machine, e: Event)
    requires Latched(m) && !Latched(Apply(m, e))
    ensures Acknowledges(e) && Apply(m, e).state == SafeTorqueOff
  {}

  /** Torque comes on only in a cycle that requests motion, from torque off without a fault. */
  lemma Energised(m: Machine, e: Event)
    requires Consistent(m) && !Torque(m) && Torque(Apply(m, e))
    ensures Enables(e) && m.state == SafeTorqueOff && !Latched(m)
  {}

  lemma {:induction false} FindRelease(m: Machine, run: seq<Event>, i: nat, k: nat) returns (a: nat)
    requires i < k <= |run| && Latched(At(m, run, i)) && !Latched(At(m, run, k))
    ensures i < a <= k && Latched(At(m, run, a - 1)) && !Latched(At(m, run, a))
    decreases k
  {
    hide Apply;
    a := k;
    if !Latched(At(m, run, k - 1)) { a := FindRelease(m, run, i, k - 1); }
  }

  lemma {:induction false} FindEnable(m: Machine, run: seq<Event>, i: nat, k: nat) returns (r: nat)
    requires i < k <= |run| && !Torque(At(m, run, i)) && Torque(At(m, run, k))
    ensures i < r <= k && !Torque(At(m, run, r - 1)) && Torque(At(m, run, r))
    decreases k
  {
    hide Apply;
    r := k;
    if Torque(At(m, run, k - 1)) { r := FindEnable(m, run, i, k - 1); }
  }

  /** Between a latched fault and any later torque there is an acknowledge cycle, itself without
      demand and without torque, and strictly after it a cycle that requests motion. */
  lemma RestartNeedsTwoCycles(m: Machine, run: seq<Event>, i: nat, k: nat) returns (a: nat, r: nat)
    requires Consistent(m) && i <= k <= |run| && Latched(At(m, run, i)) && Torque(At(m, run, k))
    ensures i < a < r <= k
    ensures Acknowledges(run[a - 1]) && !Torque(At(m, run, a))
    ensures Enables(run[r - 1]) && !Torque(At(m, run, r - 1))
  {
    hide Apply;
    StaysConsistent(m, run, i);
    StaysConsistent(m, run, k);
    a := FindRelease(m, run, i, k);
    Released(At(m, run, a - 1), run[a - 1]);
    r := FindEnable(m, run, a, k);
    StaysConsistent(m, run, r - 1);
    Energised(At(m, run, r - 1), run[r - 1]);
  }

  /** Until that acknowledgement the first cause is the one reported. */
  lemma {:induction false} FirstCauseKept(m: Machine, run: seq<Event>, i: nat, k: nat)
    requires Consistent(m) && i <= k <= |run| && Latched(At(m, run, i))
    requires forall j | i <= j < k :: !Acknowledges(run[j])
    ensures At(m, run, k).fault == At(m, run, i).fault && At(m, run, k).state == SafeTorqueOff
    ensures OutputsOf(At(m, run, k)).fault == OutputsOf(At(m, run, i)).fault && OutputsOf(At(m, run, k)).latched
    decreases k
  {
    StaysConsistent(m, run, i);
    if k > i { FirstCauseKept(m, run, i, k - 1); }
  }

  /** The condition that raised the fault is still there in this cycle's samples. A discrepancy, a
      failed self test and an invalid request are not conditions on the samples of one channel. */
  predicate CausePresent(m: Machine, x: Inputs) {
    match m.fault
    case EmergencyStop => x.emergencyStop
    case CommunicationFault => !x.communicationOk
    case WatchdogTimeout => !x.heartbeatOk
    case SpeedLimitExceeded => x.speed > m.limits.limitedSpeed
    case PositionLimitExceeded => !InBand(m.limits, x.position)
    case StandstillDeviation => !Holding(m, x)
    case StopTimeExceeded => x.speed > m.limits.standstillSpeed
    case _ => false
  }

  predicate FromDemand(fault: FaultReason) { fault in {EmergencyStop, CommunicationFault, WatchdogTimeout} }

  /** An acknowledgement clears a latch exactly in a cycle without demand. So while its cause is
      present, it never clears a fault that came from a demand, and it clears one that came from a
      monitor as if the cause were gone. */
  lemma AcknowledgeClears(m: Machine, x: Inputs)
    requires Latched(m) && x.acknowledge
    ensures !Latched(Step(m, x)) <==> !Demand(x)
    ensures CausePresent(m, x) && FromDemand(m.fault) ==> Latched(Step(m, x))
    ensures CausePresent(m, x) && !FromDemand(m.fault) ==> (Latched(Step(m, x)) <==> Demand(x))
  {}

  /** Overspeed, latched; acknowledged at the same speed; no longer latched. */
  lemma AcknowledgeExample(limits: Limits)
    requires limits.limitedSpeed >= 0.0 && !limits.positionMonitoring
    ensures var calm := Inputs(0.0, 0.0, false, true, true, true, RequestSls, false, 0);
            var fast := calm.(speed := limits.limitedSpeed + 1.0);
            var run := [Cycle(calm), Cycle(calm), Cycle(fast), Cycle(fast.(acknowledge := true))];
            && At(PowerOn(limits), run, 3).fault == SpeedLimitExceeded
            && CausePresent(At(PowerOn(limits), run, 3), run[3].x)
            && !Latched(At(PowerOn(limits), run, 4))
  {
    var m := PowerOn(limits);
    var calm := Inputs(0.0, 0.0, false, true, true, true, RequestSls, false, 0);
    var fast := calm.(speed := limits.limitedSpeed + 1.0);
    var run := [Cycle(calm), Cycle(calm), Cycle(fast), Cycle(fast.(acknowledge := true))];
    assert At(m, run, 1) == m.(state := SafeTorqueOff);
    assert At(m, run, 2) == m.(state := LimitedSpeed);
    assert At(m, run, 3) == m.(state := SafeTorqueOff, fault := SpeedLimitExceeded);
  }

  // ------------------------------------------------------------------ power-on self test

  predicate PassesSelfTest(e: Event) { e.Cycle? && !Demand(e.x) && e.x.selfTestPassed }

  /** What else leaves the self test: a demand, or a force from outside. */
  predicate Interrupts(e: Event) { e.Force? || Demand(e.x) }

  lemma {:induction false} SelfTestLeft(m: Machine, run: seq<Event>, k: nat)
    requires m == PowerOn(m.limits) && k <= |run|
    ensures At(m, run, k).state == SelfTest <==> forall j | 0 <= j < k :: !PassesSelfTest(run[j]) && !Interrupts(run[j])
    ensures At(m, run, k).state == SelfTest ==> At(m, run, k) == m
  {
    hide Apply;
    hide PassesSelfTest;
    hide Interrupts;
    if k > 0 {
      SelfTestLeft(m, run, k - 1);
      SelfTestStep(m, At(m, run, k - 1), run[k - 1]);
    }
  }

  lemma SelfTestStep(m: Machine, s: Machine, e: Event)
    requires m == PowerOn(m.limits) && (s.state == SelfTest ==> s == m)
    ensures Apply(s, e).state == SelfTest <==> s.state == SelfTest && !PassesSelfTest(e) && !Interrupts(e)
    ensures Apply(s, e).state == SelfTest ==> Apply(s, e) == m
  {
    hide Violation;
  }

  /** Torque needs a cycle that left the self test. If what left it latched a fault, be it a demand or
      a forced one, an acknowledgement came in between. */
  lemma TorqueNeedsSelfTest(m: Machine, run: seq<Event>, k: nat) returns (a: nat)
    requires m == PowerOn(m.limits) && k <= |run| && Torque(At(m, run, k))
    ensures a < k && At(m, run, a).state == SelfTest && (PassesSelfTest(run[a]) || Interrupts(run[a]))
    ensures Latched(At(m, run, a + 1)) <==> match run[a] case Cycle(x) => Demand(x) case Force(reason) => reason != NoFault
    ensures Latched(At(m, run, a + 1)) ==> exists b | a < b < k :: Acknowledges(run[b])
  {
    hide Step;
    a := FirstExit(m, run, k);
    SelfTestLeft(m, run, a);
    ExitLatches(m, run[a]);
    if Latched(At(m, run, a + 1)) {
      var b, r := RestartNeedsTwoCycles(m, run, a + 1, k);
      assert Acknowledges(run[b - 1]);
    }
  }

  lemma ExitLatches(m: Machine, e: Event)
    requires m == PowerOn(m.limits)
    ensures Latched(Apply(m, e)) <==> match e case Cycle(x) => Demand(x) case Force(reason) => reason != NoFault
  {}

  lemma {:induction false} FirstExit(m: Machine, run: seq<Event>, k: nat) returns (a: nat)
    requires m == PowerOn(m.limits) && k <= |run| && At(m, run, k).state != SelfTest
    ensures a < k && At(m, run, a).state == SelfTest && (PassesSelfTest(run[a]) || Interrupts(run[a]))
  {
    hide Apply;
    SelfTestLeft(m, run, k);
    a := k - 1;
    if At(m, run, k - 1).state != SelfTest { a := FirstExit(m, run, k - 1); } else { SelfTestLeft(m, run, k - 1); }
  }

  /** Three demand-free cycles, none of which reports a passed self test. */
  function Retry(limits: Limits): seq<Event> {
    var quiet := Inputs(limits.standstillSpeed, 0.0, false, true, true, false, RequestSto, true, 0);
    [Cycle(quiet), Cycle(quiet), Cycle(quiet.(request := NoRestriction, acknowledge := false))]
  }

  /** Exactly when torque can be had although the self test never passed: once a demand or a forced
      stop has interrupted it. */
  lemma SelfTestBypassed(m: Machine, run: seq<Event>)
    requires m == PowerOn(m.limits) && forall j | 0 <= j < |run| :: !PassesSelfTest(run[j])
    ensures Torque(At(m, run + Retry(m.limits), |run| + 3)) <==> exists j | 0 <= j < |run| :: Interrupts(run[j])
  {
    var n, long := |run|, run + Retry(m.limits);
    AtPrefix(m, run, Retry(m.limits), n);
    StaysConsistent(m, run, n);
    SelfTestLeft(m, run, n);
    RetryEnables(At(m, run, n), long, n, m);
  }

  lemma {:induction false} AtPrefix(m: Machine, run: seq<Event>, more: seq<Event>, k: nat)
    requires k <= |run|
    ensures At(m, run + more, k) == At(m, run, k)
  {
    hide Apply;
    if k > 0 { AtPrefix(m, run, more, k - 1); }
  }

  lemma RetryEnables(p: Machine, long: seq<Event>, n: nat, m: Machine)
    requires |long| == n + 3 && long[n..] == Retry(p.limits) && At(m, long, n) == p && Consistent(p)
    ensures Torque(At(m, long, n + 3)) <==> p.state != SelfTest
  {
    var c := Retry(p.limits);
    assert long[n] == long[n..][0] && long[n + 1] == long[n..][1] && long[n + 2] == long[n..][2];
    var q := Apply(p, c[0]);
    assert At(m, long, n + 1) == q && At(m, long, n + 2) == Apply(q, c[1]);
  }

  /** The shortest such run: emergency stop during the self test, acknowledgement, enable. */
  lemma BypassExample(limits: Limits)
    ensures var stop := Inputs(0.0, 0.0, true, true, true, false, RequestSto, false, 0);
            var run := [Cycle(stop),
                        Cycle(stop.(emergencyStop := false, acknowledge := true)),
                        Cycle(stop.(emergencyStop := false, request := NoRestriction))];
            (forall j | 0 <= j < |run| :: !PassesSelfTest(run[j])) && Torque(At(PowerOn(limits), run, 3))
  {
    var m := PowerOn(limits);
    var stop := Inputs(0.0, 0.0, true, true, true, false, RequestSto, false, 0);
    var run := [Cycle(stop),
                Cycle(stop.(emergencyStop := false, acknowledge := true)),
                Cycle(stop.(emergencyStop := false, request := NoRestriction))];
    assert At(m, run, 1) == m.(state := SafeTorqueOff, fault := EmergencyStop);
    assert At(m, run, 2) == m.(state := SafeTorqueOff);
  }

  // ------------------------------------------------------------------ SS1 and SOS segments

  /** The machine is in state s from index i to index k inclusive, and was not just before i. */
  predicate Segment(m: Machine, run: seq<Event>, s: SafetyState, i: nat, k: nat) {
    && 0 < i <= k <= |run| && At(m, run, i - 1).state != s
    && forall j | i <= j <= k :: At(m, run, j).state == s
  }

  predicate Decelerating(limits: Limits, x: Inputs, started: int) {
    !Demand(x) && x.speed > limits.standstillSpeed && x.timestamp - started <= limits.stopTimeLimit
  }

  lemma StoppingStep(m: Machine, e: Event)
    requires Consistent(m) && Apply(m, e).state == Stopping
    ensures e.Cycle?
    ensures m.state == Stopping ==> Decelerating(m.limits, e.x, m.stopStarted) && Apply(m, e).stopStarted == m.stopStarted
    ensures m.state != Stopping ==> Apply(m, e).stopStarted == e.x.timestamp
  {}

  lemma OperatingStopStep(m: Machine, e: Event)
    requires Consistent(m) && Apply(m, e).state == OperatingStop
    ensures e.Cycle? && e.x.speed <= m.limits.standstillSpeed
    ensures m.state == OperatingStop ==> Holding(m, e.x) && Apply(m, e).reference == m.reference
    ensures m.state != OperatingStop ==> Apply(m, e).reference == e.x.position
  {}

  /** A controlled stop keeps its start time, and no cycle after entry is later than the limit. */
  lemma {:induction false} StoppingSegment(m: Machine, run: seq<Event>, i: nat, k: nat)
    requires Consistent(m) && Segment(m, run, Stopping, i, k)
    ensures run[i - 1].Cycle? && At(m, run, k).stopStarted == run[i - 1].x.timestamp
    ensures forall j | i <= j < k :: run[j].Cycle? && Decelerating(m.limits, run[j].x, run[i - 1].x.timestamp)
    decreases k
  {
    hide Apply;
    StaysConsistent(m, run, k - 1);
    assert At(m, run, k).state == Stopping;
    assert k > i ==> At(m, run, k - 1).state == Stopping;
    StoppingStep(At(m, run, k - 1), run[k - 1]);
    if k > i { StoppingSegment(m, run, i, k - 1); }
  }

  /** It ends only in torque off, and without a fault exactly when the closing event is a
      demand-free cycle at standstill, however late, or a force that names no fault. */
  lemma StoppingEnds(m: Machine, run: seq<Event>, k: nat)
    requires Consistent(m) && k < |run| && At(m, run, k).state == Stopping && At(m, run, k + 1).state != Stopping
    ensures At(m, run, k + 1).state == SafeTorqueOff
    ensures !Latched(At(m, run, k + 1)) <==>
            match run[k]
            case Cycle(x) => !Demand(x) && x.speed <= m.limits.standstillSpeed
            case Force(reason) => reason == NoFault
  {
    hide Apply;
    StaysConsistent(m, run, k);
    StoppingExit(At(m, run, k), run[k]);
  }

  /** Long past the limit, the first sample after the stop began is at standstill: no fault. */
  lemma LateStandstillExample(limits: Limits, late: nat)
    requires limits.stopTimeLimit >= 0 && !limits.positionMonitoring
    ensures var go := Inputs(limits.standstillSpeed + 1.0, 0.0, false, true, true, true, NoRestriction, false, 0);
            var stopped := go.(speed := limits.standstillSpeed, timestamp := limits.stopTimeLimit + 1 + late);
            var run := [Cycle(go), Cycle(go), Cycle(go.(request := RequestSs1)), Cycle(stopped)];
            && At(PowerOn(limits), run, 3).state == Stopping && StopOverdue(At(PowerOn(limits), run, 3), stopped)
            && At(PowerOn(limits), run, 4).state == SafeTorqueOff && !Latched(At(PowerOn(limits), run, 4))
  {
    var m := PowerOn(limits);
    var go := Inputs(limits.standstillSpeed + 1.0, 0.0, false, true, true, true, NoRestriction, false, 0);
    var stopped := go.(speed := limits.standstillSpeed, timestamp := limits.stopTimeLimit + 1 + late);
    var run := [Cycle(go), Cycle(go), Cycle(go.(request := RequestSs1)), Cycle(stopped)];
    assert At(m, run, 1) == m.(state := SafeTorqueOff);
    assert At(m, run, 2) == m.(state := Operational);
    assert At(m, run, 3) == m.(state := Stopping, stopStarted := 0);
  }

  lemma StoppingExit(m: Machine, e: Event)
    requires Consistent(m) && m.state == Stopping && Apply(m, e).state != Stopping
    ensures Apply(m, e).state == SafeTorqueOff
    ensures !Latched(Apply(m, e)) <==>
            match e
            case Cycle(x) => !Demand(x) && x.speed <= m.limits.standstillSpeed
            case Force(reason) => reason == NoFault
  {}

  /** Throughout an operating stop the reference is the position at entry, and every later cycle is
      within the window of it and at standstill. */
  lemma {:induction false} OperatingStopSegment(m: Machine, run: seq<Event>, i: nat, k: nat)
    requires Consistent(m) && Segment(m, run, OperatingStop, i, k)
    ensures run[i - 1].Cycle? && At(m, run, k).reference == run[i - 1].x.position
    ensures run[i - 1].x.speed <= m.limits.standstillSpeed
    ensures forall j | i <= j < k :: run[j].Cycle? && run[j].x.speed <= m.limits.standstillSpeed
              && Distance(run[j].x.position, run[i - 1].x.position) <= m.limits.standstillWindow
    decreases k
  {
    hide Apply;
    StaysConsistent(m, run, k - 1);
    assert At(m, run, k).state == OperatingStop;
    assert k > i ==> At(m, run, k - 1).state == OperatingStop;
    OperatingStopStep(At(m, run, k - 1), run[k - 1]);
    if k > i { OperatingStopSegment(m, run, i, k - 1); }
  }

  /** A limited-speed output always comes from a sample within the limit, and with position
      monitoring every motion cycle but the first of its segment was sampled inside the band. */
  lemma MotionWithinLimits(m: Machine, run: seq<Event>, k: nat)
    requires Consistent(m) && k < |run| && run[k].Cycle? && PermitsMotion(At(m, run, k + 1).state)
    ensures At(m, run, k + 1).state == LimitedSpeed ==> run[k].x.speed <= m.limits.limitedSpeed
    ensures m.limits.positionMonitoring && PermitsMotion(At(m, run, k).state) ==> InBand(m.limits, run[k].x.position)
  {
    hide Step;
    StaysConsistent(m, run, k);
    MotionStep(At(m, run, k), run[k].x);
  }

  lemma MotionStep(m: Machine, x: Inputs)
    requires Consistent(m) && PermitsMotion(Step(m, x).state)
    ensures Step(m, x).state == LimitedSpeed ==> x.speed <= m.limits.limitedSpeed
    ensures m.limits.positionMonitoring && PermitsMotion(m.state) ==> InBand(m.limits, x.position)
  {}

  /** Exactly when a cycle permits motion although its sample is out of the band: the first cycle of a
      motion segment, entered from torque off or from an operating stop, is never checked. */
  lemma FirstMotionCycleUnchecked(m: Machine, x: Inputs)
    requires Consistent(m) && m.limits.positionMonitoring && !InBand(m.limits, x.position)
    ensures PermitsMotion(Step(m, x).state) <==>
            && !Demand(x) && !Latched(m)
            && (m.state == SafeTorqueOff || (m.state == OperatingStop && Holding(m, x)))
            && (x.request == NoRestriction || (x.request == RequestSls && x.speed <= m.limits.limitedSpeed))
  {}

  /** Both entries in one run, with a band of -1 to 1: motion is granted at 5 from torque off, and at 1.2
      from an operating stop held at 0.9. */
  lemma OutOfBandExample()
    ensures var limits := Limits(10.0, Finite(-1.0), Finite(1.0), true, 0.5, 0.1, 0);
            var at := Inputs(0.0, 5.0, false, true, true, true, NoRestriction, false, 0);
            var held := at.(position := 0.9);
            var run := [Cycle(at), Cycle(at), Cycle(held.(request := RequestSos)), Cycle(at.(position := 1.2))];
            && !InBand(limits, run[1].x.position) && PermitsMotion(At(PowerOn(limits), run, 2).state)
            && !InBand(limits, run[3].x.position) && PermitsMotion(At(PowerOn(limits), run, 4).state)
  {
    var limits := Limits(10.0, Finite(-1.0), Finite(1.0), true, 0.5, 0.1, 0);
    var at := Inputs(0.0, 5.0, false, true, true, true, NoRestriction, false, 0);
    var held := at.(position := 0.9);
    var run := [Cycle(at), Cycle(at), Cycle(held.(request := RequestSos)), Cycle(at.(position := 1.2))];
    var m := PowerOn(limits);
    assert At(m, run, 1) == m.(state := SafeTorqueOff);
    assert At(m, run, 2) == m.(state := Operational);
    assert At(m, run, 3) == m.(state := OperatingStop, reference := 0.9);
  }
}
