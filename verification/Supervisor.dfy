/** The IEC 61800-5-2 supervisor of safety_state_machine.cpp. */
module Supervisor {

  datatype SafetyFunction = NoRestriction | RequestSto | RequestSs1 | RequestSos | RequestSls

  datatype SafetyState = SafeTorqueOff | SelfTest | Stopping | OperatingStop | LimitedSpeed | Operational {
    /** Lower is more restrictive. */
    function Rank(): nat {
      match this
      case SafeTorqueOff => 0
      case SelfTest => 1
      case Stopping => 2
      case OperatingStop => 3
      case LimitedSpeed => 4
      case Operational => 5
    }
  }

  datatype FaultReason =
    | NoFault | SelfTestFailed | EmergencyStop | SpeedLimitExceeded | PositionLimitExceeded | StandstillDeviation
    | StopTimeExceeded | CommunicationFault | WatchdogTimeout | ChannelDiscrepancy | InvalidRequest

  /** A double that may be infinite. */
  datatype Extended = NegInf | Finite(value: real) | PosInf {
    predicate AtMost(other: Extended) {
      NegInf? || other.PosInf? || (Finite? && other.Finite? && value <= other.value)
    }
  }

  datatype Limits = Limits(
    limitedSpeed: real, positionMin: Extended, positionMax: Extended, positionMonitoring: bool,
    standstillWindow: real, standstillSpeed: real, stopTimeLimit: int)

  datatype Inputs = Inputs(
    speed: real, position: real, emergencyStop: bool, communicationOk: bool, heartbeatOk: bool,
    selfTestPassed: bool, request: SafetyFunction, acknowledge: bool, timestamp: int)

  datatype Outputs = Outputs(
    torque: bool, motion: bool, speedLimit: Extended, brake: bool, state: SafetyState, fault: FaultReason, latched: bool)

  datatype Machine = Machine(limits: Limits, state: SafetyState, fault: FaultReason, stopStarted: int, reference: real)

  function PowerOn(limits: Limits): Machine { Machine(limits, SelfTest, NoFault, 0, 0.0) }

  // ------------------------------------------------------------------ conditions

  predicate Demand(x: Inputs) { x.emergencyStop || !x.communicationOk || !x.heartbeatOk }

  function DemandReason(x: Inputs): FaultReason {
    if x.emergencyStop then EmergencyStop
    else if !x.communicationOk then CommunicationFault
    else if !x.heartbeatOk then WatchdogTimeout
    else NoFault
  }

  function Distance(a: real, b: real): real { if a < b then b - a else a - b }

  predicate InBand(limits: Limits, position: real) {
    limits.positionMin.AtMost(Finite(position)) && Finite(position).AtMost(limits.positionMax)
  }

  predicate Holding(m: Machine, x: Inputs) {
    Distance(x.position, m.reference) <= m.limits.standstillWindow && x.speed <= m.limits.standstillSpeed
  }

  predicate StopOverdue(m: Machine, x: Inputs) { x.timestamp - m.stopStarted > m.limits.stopTimeLimit }

  predicate PermitsTorque(s: SafetyState) { s.Rank() >= 2 }

  predicate PermitsMotion(s: SafetyState) { s.Rank() >= 4 }

  /** The monitor that trips in the current state, if any. */
  function Violation(m: Machine, x: Inputs): FaultReason {
    if m.state == LimitedSpeed && x.speed > m.limits.limitedSpeed then SpeedLimitExceeded
    else if m.state == OperatingStop && !Holding(m, x) then StandstillDeviation
    else if m.state == Stopping && x.speed > m.limits.standstillSpeed && StopOverdue(m, x) then StopTimeExceeded
    else if m.limits.positionMonitoring && PermitsMotion(m.state) && !InBand(m.limits, x.position) then PositionLimitExceeded
    else NoFault
  }

  // ------------------------------------------------------------------ one cycle

  function EnterSto(m: Machine, reason: FaultReason): Machine {
    m.(state := SafeTorqueOff, fault := if m.fault == NoFault then reason else m.fault)
  }

  function Requested(m: Machine, x: Inputs): Machine {
    match x.request
    case RequestSto => EnterSto(m, NoFault)
    case RequestSs1 =>
      if m.state.Rank() >= 3 then m.(state := Stopping, stopStarted := x.timestamp) else m
    case RequestSos =>
      if m.state == SafeTorqueOff || (PermitsMotion(m.state) && x.speed > m.limits.standstillSpeed) then EnterSto(m, InvalidRequest)
      else if PermitsMotion(m.state) then m.(state := OperatingStop, reference := x.position)
      else m
    case RequestSls =>
      if m.state !in {SafeTorqueOff, Operational, OperatingStop} then m
      else if x.speed > m.limits.limitedSpeed then EnterSto(m, SpeedLimitExceeded)
      else m.(state := LimitedSpeed)
    case NoRestriction =>
      if m.state in {SafeTorqueOff, LimitedSpeed, OperatingStop} then m.(state := Operational) else m
  }

  /** Demands, then the latch, then monitors, then requests. */
  function Step(m: Machine, x: Inputs): Machine {
    if Demand(x) then EnterSto(m, DemandReason(x))
    else if m.fault != NoFault then m.(state := SafeTorqueOff, fault := if x.acknowledge then NoFault else m.fault)
    else if m.state == SelfTest then (if x.selfTestPassed then m.(state := SafeTorqueOff) else m)
    else if Violation(m, x) != NoFault then EnterSto(m, Violation(m, x))
    else if m.state == Stopping then (if x.speed <= m.limits.standstillSpeed then EnterSto(m, NoFault) else m)
    else Requested(m, x)
  }

  function OutputsOf(m: Machine): Outputs {
    Outputs(
      PermitsTorque(m.state), PermitsMotion(m.state),
      (match m.state
       case LimitedSpeed => Finite(m.limits.limitedSpeed)
       case Operational => PosInf
       case _ => Finite(0.0)),
      !PermitsTorque(m.state), m.state, m.fault, m.fault != NoFault)
  }

  /** The supervisor object. */
  class SafetyStateMachine {
    var limits: Limits
    var state: SafetyState
    var fault: FaultReason
    var stopStarted: int
    var reference: real

    function View(): Machine
      reads this
    {
      Machine(limits, state, fault, stopStarted, reference)
    }

    constructor (limits: Limits)
      ensures View() == PowerOn(limits) && this.limits == limits && state == SelfTest && fault == NoFault
    {
      this.limits := limits;
      state := SelfTest;
      fault := NoFault;
      stopStarted := 0;
      reference := 0.0;
    }

    method Reset()
      modifies this
      ensures View() == PowerOn(old(limits)) && limits == old(limits) && state == SelfTest && fault == NoFault
    {
      state := SelfTest;
      fault := NoFault;
      stopStarted := 0;
      reference := 0.0;
    }

    method SetLimits(limits: Limits)
      modifies this`limits
      ensures View() == old(View()).(limits := limits)
    {
      this.limits := limits;
    }

    method EnterSafeTorqueOff(reason: FaultReason)
      modifies this`state, this`fault
      ensures View() == EnterSto(old(View()), reason)
    {
      state := SafeTorqueOff;
      if reason != NoFault && fault == NoFault {
        fault := reason;
      }
    }

    method ForceFault(reason: FaultReason)
      modifies this`state, this`fault
      ensures View() == EnterSto(old(View()), reason)
      ensures state == SafeTorqueOff && fault == if old(fault) == NoFault then reason else old(fault)
    {
      EnterSafeTorqueOff(reason);
    }

    method OutputsFor() returns (outputs: Outputs)
      ensures outputs == OutputsOf(View())
    {
      outputs := Outputs(false, false, Finite(0.0), true, state, fault, fault != NoFault);
      match state {
        case SelfTest =>
        case SafeTorqueOff =>
        case Stopping =>
          outputs := outputs.(torque := true, brake := false);
        case OperatingStop =>
          outputs := outputs.(torque := true, brake := false);
        case LimitedSpeed =>
          outputs := outputs.(torque := true, motion := true, speedLimit := Finite(limits.limitedSpeed), brake := false);
        case Operational =>
          outputs := outputs.(torque := true, motion := true, speedLimit := PosInf, brake := false);
      }
    }

    method Evaluate(x: Inputs) returns (outputs: Outputs)
      modifies this
      ensures View() == Step(old(View()), x) && outputs == OutputsOf(View())
    {
      Advance(x);
      outputs := OutputsFor();
    }

    /** The state change of one evaluation, in the order the source performs it. */
    method Advance(x: Inputs)
      modifies this
      ensures View() == Step(old(View()), x)
    {
      if x.emergencyStop || !x.communicationOk || !x.heartbeatOk {
        EnterSafeTorqueOff(DemandReason(x));
        return;
      }
      if fault != NoFault {
        if x.acknowledge {
          fault := NoFault;
        }
        state := SafeTorqueOff;
        return;
      }
      match state {
        case SelfTest =>
          if x.selfTestPassed {
            state := SafeTorqueOff;
          }
          return;
        case LimitedSpeed =>
          if x.speed > limits.limitedSpeed {
            EnterSafeTorqueOff(SpeedLimitExceeded);
            return;
          }
        case OperatingStop =>
          if Distance(x.position, reference) > limits.standstillWindow {
            EnterSafeTorqueOff(StandstillDeviation);
            return;
          }
          if x.speed > limits.standstillSpeed {
            EnterSafeTorqueOff(StandstillDeviation);
            return;
          }
        case Stopping =>
          if x.speed <= limits.standstillSpeed {
            EnterSafeTorqueOff(NoFault);
            return;
          }
          if x.timestamp - stopStarted > limits.stopTimeLimit {
            EnterSafeTorqueOff(StopTimeExceeded);
            return;
          }
          return;
        case SafeTorqueOff =>
        case Operational =>
      }
      if limits.positionMonitoring && (state == Operational || state == LimitedSpeed) {
        if !limits.positionMin.AtMost(Finite(x.position)) || !Finite(x.position).AtMost(limits.positionMax) {
          EnterSafeTorqueOff(PositionLimitExceeded);
          return;
        }
      }
      HonourRequest(x);
    }

    method HonourRequest(x: Inputs)
      modifies this
      ensures View() == Requested(old(View()), x)
    {
      match x.request {
        case RequestSto =>
          EnterSafeTorqueOff(NoFault);
        case RequestSs1 =>
          if state == Operational || state == LimitedSpeed || state == OperatingStop {
            state := Stopping;
            stopStarted := x.timestamp;
          } else if state == SafeTorqueOff {
            state := SafeTorqueOff;
          }
        case RequestSos =>
          if state == Operational || state == LimitedSpeed {
            if x.speed > limits.standstillSpeed {
              EnterSafeTorqueOff(InvalidRequest);
            } else {
              state := OperatingStop;
              reference := x.position;
            }
          } else if state == SafeTorqueOff {
            EnterSafeTorqueOff(InvalidRequest);
          }
        case RequestSls =>
          if state == SafeTorqueOff || state == Operational || state == OperatingStop {
            if x.speed > limits.limitedSpeed {
              EnterSafeTorqueOff(SpeedLimitExceeded);
            } else {
              state := LimitedSpeed;
            }
          }
        case NoRestriction =>
          if state == SafeTorqueOff || state == LimitedSpeed || state == OperatingStop {
            state := Operational;
          }
      }
    }
  }
}
