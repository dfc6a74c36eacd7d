/** The runtime snapshot of runtime_snapshot.hpp, and the bytes it occupies in the slot: the record has
    standard layout, fields in declaration order at their natural alignment, little-endian. */
module Snapshots {
  import opened Bits
  import opened Supervisor

  const STATISTICS_BYTES: nat := 88
  const TAIL_BYTES: nat := 48
  const SNAPSHOT_BYTES: nat := 168

  datatype Snapshot = Snapshot(
    state: uint32, fault: uint32, torque: uint32, latched: uint32, transitionNs: uint64, sequence: uint64)

  const EMPTY := Snapshot(0, 0, 0, 0, 0, 0)

  /** The fields in front of and behind these: executor statistics, then ages, telegram counts and so on. */
  type Statistics = b: seq<byte> | |b| == STATISTICS_BYTES witness ZeroBytes(STATISTICS_BYTES)
  type Tail = b: seq<byte> | |b| == TAIL_BYTES witness ZeroBytes(TAIL_BYTES)

  function StateCode(s: SafetyState): uint32 { s.Rank() }

  function FaultCode(f: FaultReason): uint32 {
    match f
    case NoFault => 0
    case SelfTestFailed => 1
    case EmergencyStop => 2
    case SpeedLimitExceeded => 3
    case PositionLimitExceeded => 4
    case StandstillDeviation => 5
    case StopTimeExceeded => 6
    case CommunicationFault => 7
    case WatchdogTimeout => 8
    case ChannelDiscrepancy => 9
    case InvalidRequest => 10
  }

  function Flag(b: bool): uint32 { if b then 1 else 0 }

  function SnapshotOf(o: Outputs, transitionNs: uint64, sequence: uint64): Snapshot {
    Snapshot(StateCode(o.state), FaultCode(o.fault), Flag(o.torque), Flag(o.latched), transitionNs, sequence)
  }

  /** What a consumer reads off the snapshot determines state, fault, torque and latch. */
  lemma SnapshotTells(o: Outputs, p: Outputs, t: uint64, n: uint64)
    requires SnapshotOf(o, t, n) == SnapshotOf(p, t, n)
    ensures o.state == p.state && o.fault == p.fault && o.torque == p.torque && o.latched == p.latched
  {}

  /** The numbers themselves: the source's enumerators in order, and one for true. */
  lemma SnapshotNumbers(o: Outputs, t: uint64, n: uint64)
    ensures var s := SnapshotOf(o, t, n);
      && s.state == (match o.state
                     case SafeTorqueOff => 0
                     case SelfTest => 1
                     case Stopping => 2
                     case OperatingStop => 3
                     case LimitedSpeed => 4
                     case Operational => 5)
      && s.fault == (match o.fault
                     case NoFault => 0
                     case SelfTestFailed => 1
                     case EmergencyStop => 2
                     case SpeedLimitExceeded => 3
                     case PositionLimitExceeded => 4
                     case StandstillDeviation => 5
                     case StopTimeExceeded => 6
                     case CommunicationFault => 7
                     case WatchdogTimeout => 8
                     case ChannelDiscrepancy => 9
                     case InvalidRequest => 10)
      && s.torque == (if o.torque then 1 else 0) && s.latched == (if o.latched then 1 else 0)
      && s.transitionNs == t && s.sequence == n
  {}

  // ------------------------------------------------------------------ object representation

  function Codes(s: Snapshot): (r: seq<byte>)
    ensures |r| == 16
  {
    Le32(s.state) + Le32(s.fault) + Le32(s.torque) + Le32(s.latched)
  }

  function Layout(s: Snapshot, statistics: Statistics, tail: Tail): (r: seq<byte>)
    ensures |r| == SNAPSHOT_BYTES
  {
    statistics + Codes(s) + Le64(s.transitionNs) + Le64(s.sequence) + tail
  }

  function Decode(bytes: seq<byte>): Snapshot
    requires |bytes| == SNAPSHOT_BYTES
  {
    Snapshot(
      ReadLe32(bytes, 88), ReadLe32(bytes, 92), ReadLe32(bytes, 96), ReadLe32(bytes, 100),
      ReadLe64(bytes, 104), ReadLe64(bytes, 112))
  }

  /** Reading the record back gives what was written, whatever the other fields hold. */
  lemma DecodeLayout(s: Snapshot, statistics: Statistics, tail: Tail)
    ensures Decode(Layout(s, statistics, tail)) == s
  {
    hide Le32;
    hide Le64;
    hide ReadLe32;
    hide ReadLe64;
    var b := Layout(s, statistics, tail);
    assert b[88..92] == Le32(s.state) && b[92..96] == Le32(s.fault);
    assert b[96..100] == Le32(s.torque) && b[100..104] == Le32(s.latched);
    assert b[104..112] == Le64(s.transitionNs) && b[112..120] == Le64(s.sequence);
    ReadField32(b, 88, s.state);
    ReadField32(b, 92, s.fault);
    ReadField32(b, 96, s.torque);
    ReadField32(b, 100, s.latched);
    ReadField64(b, 104, s.transitionNs);
    ReadField64(b, 112, s.sequence);
  }

  /** Where the fields stand: low byte first, at their offsets in the record. */
  lemma LayoutBytes(s: Snapshot, statistics: Statistics, tail: Tail)
    ensures var b := Layout(s, statistics, tail);
      && |b| == 168 && b[..88] == statistics && b[120..] == tail
      && FromBytes(b[88], b[89], b[90], b[91]) == s.state && FromBytes(b[92], b[93], b[94], b[95]) == s.fault
      && FromBytes(b[96], b[97], b[98], b[99]) == s.torque && FromBytes(b[100], b[101], b[102], b[103]) == s.latched
      && FromBytes(b[104], b[105], b[106], b[107]) + TWO32 * FromBytes(b[108], b[109], b[110], b[111]) == s.transitionNs
      && FromBytes(b[112], b[113], b[114], b[115]) + TWO32 * FromBytes(b[116], b[117], b[118], b[119]) == s.sequence
  {
    hide Le32;
    hide Le64;
    hide FromBytes;
    DecodeLayout(s, statistics, tail);
  }

  /** A slot nothing was stored in reads as the empty snapshot. */
  lemma DecodeZero()
    ensures Decode(ZeroBytes(SNAPSHOT_BYTES)) == EMPTY
  {}
}
