/** The safety receiver of black_channel.cpp: one call, and what holds over every run of calls. */
module Receiver {
  import opened Bits
  import opened Telegram
  import Crc32
  import Authenticity

  datatype TransmissionFault =
    | NoFault | Corruption | UnintendedRepetition | IncorrectSequence | Loss | UnacceptableDelay
    | Insertion | Masquerade | AddressingError

  datatype ReceiveStatus =
    | Valid | Malformed | CrcMismatch | Repetition | SequenceGap | OutOfOrder | Timeout | InSafeState

  datatype Diagnostics = Diagnostics(
    accepted: nat, rejectedMalformed: nat, rejectedCrc: nat, rejectedRepetition: nat, rejectedSequenceGap: nat,
    rejectedOutOfOrder: nat, timeouts: nat, telegramsLost: nat, lastAccepted: uint32)

  datatype State = State(
    address: SafetyAddress, watchdog: int, lastValid: int, lastNumber: uint32, synchronised: bool,
    safe: bool, lastFault: TransmissionFault, diagnostics: Diagnostics)

  const NO_DIAGNOSTICS := Diagnostics(0, 0, 0, 0, 0, 0, 0, 0, 0)

  function Fresh(address: SafetyAddress, watchdog: int): State {
    State(address, watchdog, 0, 0, false, false, NoFault, NO_DIAGNOSTICS)
  }

  // ------------------------------------------------------------------ one call

  /** The 32-bit difference read as a signed number. */
  function SignedGap(number: uint32, expected: uint32): int {
    var d := (number - expected) % TWO32;
    if d < 0x8000_0000 then d else d - TWO32
  }

  predicate Late(r: State, now: int) { r.synchronised && now - r.lastValid > r.watchdog }

  predicate WellSized(raw: seq<byte>, capacity: nat) {
    OVERHEAD_BYTES <= |raw| <= MAX_TELEGRAM_BYTES && |raw| - OVERHEAD_BYTES <= capacity
  }

  function SequenceVerdict(last: uint32, number: uint32): ReceiveStatus {
    if number == Succ(last) then Valid
    else if number == last then Repetition
    else if SignedGap(number, Succ(last)) < 0 then OutOfOrder
    else SequenceGap
  }

  function Judge(r: State, raw: seq<byte>, now: int, capacity: nat): ReceiveStatus {
    if r.safe then InSafeState
    else if !WellSized(raw, capacity) then Malformed
    else if !CrcMatches(r.address, raw) then CrcMismatch
    else if Late(r, now) then Timeout
    else if !r.synchronised then Valid
    else SequenceVerdict(r.lastNumber, NumberOf(raw))
  }

  function Latched(r: State, fault: TransmissionFault, diagnostics: Diagnostics): State {
    r.(safe := true, lastFault := fault, diagnostics := diagnostics)
  }

  function AfterReceive(r: State, raw: seq<byte>, now: int, capacity: nat): State {
    var d := r.diagnostics;
    match Judge(r, raw, now, capacity)
    case InSafeState => r
    case Malformed => Latched(r, Corruption, d.(rejectedMalformed := d.rejectedMalformed + 1))
    case CrcMismatch => Latched(r, Corruption, d.(rejectedCrc := d.rejectedCrc + 1))
    case Timeout => Latched(r, UnacceptableDelay, d.(timeouts := d.timeouts + 1))
    case Repetition => Latched(r, UnintendedRepetition, d.(rejectedRepetition := d.rejectedRepetition + 1))
    case OutOfOrder => Latched(r, IncorrectSequence, d.(rejectedOutOfOrder := d.rejectedOutOfOrder + 1))
    case SequenceGap =>
      Latched(r, Loss, d.(rejectedSequenceGap := d.rejectedSequenceGap + 1,
                          telegramsLost := d.telegramsLost + SignedGap(NumberOf(raw), Succ(r.lastNumber))))
    case Valid =>
      r.(synchronised := true, lastNumber := NumberOf(raw), lastValid := now,
         diagnostics := d.(accepted := d.accepted + 1, lastAccepted := NumberOf(raw)))
  }

  function PollStatus(r: State, now: int): ReceiveStatus {
    if r.safe then InSafeState else if Late(r, now) then Timeout else Valid
  }

  function AfterPoll(r: State, now: int): State {
    if PollStatus(r, now) != Timeout then r
    else Latched(r, Loss, r.diagnostics.(timeouts := r.diagnostics.timeouts + 1))
  }

  function AfterAcknowledge(r: State, now: int): State {
    r.(safe := false, lastFault := NoFault, synchronised := false, lastNumber := 0, lastValid := now)
  }

  class SafetyReceiver {
    const address: SafetyAddress
    const watchdog: int
    const table: seq<Crc32.Word>
    var lastValid: int
    var lastNumber: uint32
    var synchronised: bool
    var safeState: bool
    var lastFault: TransmissionFault
    var diagnostics: Diagnostics

    ghost predicate Ready() {
      Crc32.IsTable(table)
    }

    function View(): State
      reads this
    {
      State(address, watchdog, lastValid, lastNumber, synchronised, safeState, lastFault, diagnostics)
    }

    constructor (address: SafetyAddress, watchdog: int, table: seq<Crc32.Word>)
      requires Crc32.IsTable(table)
      ensures Ready() && View() == Fresh(address, watchdog)
    {
      this.address := address;
      this.watchdog := watchdog;
      this.table := table;
      lastValid := 0;
      lastNumber := 0;
      synchronised := false;
      safeState := false;
      lastFault := NoFault;
      diagnostics := NO_DIAGNOSTICS;
    }

    method Latch(fault: TransmissionFault)
      modifies this`safeState, this`lastFault
      ensures View() == Latched(old(View()), fault, old(diagnostics))
    {
      safeState := true;
      lastFault := fault;
    }

    /** Counts a rejection and latches. */
    method Reject(fault: TransmissionFault, counted: Diagnostics)
      modifies this`safeState, this`lastFault, this`diagnostics
      ensures View() == Latched(old(View()), fault, counted)
    {
      diagnostics := counted;
      Latch(fault);
    }

    method AcknowledgeAndReset(now: int)
      modifies this
      ensures View() == AfterAcknowledge(old(View()), now)
    {
      safeState := false;
      lastFault := NoFault;
      synchronised := false;
      lastNumber := 0;
      lastValid := now;
    }

    method Poll(now: int) returns (status: ReceiveStatus)
      modifies this
      ensures status == PollStatus(old(View()), now) && View() == AfterPoll(old(View()), now)
    {
      if safeState {
        return InSafeState;
      }
      if !synchronised {
        return Valid;
      }
      if now - lastValid > watchdog {
        Reject(Loss, diagnostics.(timeouts := diagnostics.timeouts + 1));
        return Timeout;
      }
      return Valid;
    }

    /** The verdict, the new state, and the caller's buffer: written exactly on acceptance. */
    method Receive(raw: seq<byte>, now: int, payloadOut: array<byte>)
      returns (status: ReceiveStatus, payloadSize: nat, statusOut: byte)
      requires Ready()
      modifies this, payloadOut
      ensures status == Judge(old(View()), raw, now, payloadOut.Length)
      ensures View() == AfterReceive(old(View()), raw, now, payloadOut.Length)
      ensures status == Valid ==> |raw| >= OVERHEAD_BYTES && payloadSize == |PayloadOf(raw)| <= payloadOut.Length
                                  && statusOut == StatusOf(raw)
                                  && payloadOut[..] == PayloadOf(raw) + old(payloadOut[..])[payloadSize..]
      ensures status != Valid ==> payloadSize == 0 && statusOut == 0 && payloadOut[..] == old(payloadOut[..])
    {
      hide BodyCrc;
      hide Body;
      hide ReadLe32;
      hide SignedGap;
      hide Crc32.IsTable;
      payloadSize := 0;
      statusOut := 0;
      if safeState {
        return InSafeState, 0, 0;
      }
      if |raw| < OVERHEAD_BYTES || |raw| > MAX_TELEGRAM_BYTES {
        Reject(Corruption, diagnostics.(rejectedMalformed := diagnostics.rejectedMalformed + 1));
        return Malformed, 0, 0;
      }
      var receivedSize := |raw| - OVERHEAD_BYTES;
      if receivedSize > payloadOut.Length {
        Reject(Corruption, diagnostics.(rejectedMalformed := diagnostics.rejectedMalformed + 1));
        return Malformed, 0, 0;
      }
      var payload := raw[..receivedSize];
      var frameStatus := raw[receivedSize];
      var number := ReadLe32(raw, receivedSize + 1);
      var receivedCrc := ReadLe32(raw, receivedSize + 5);
      var expectedCrc := ComputeTelegramCrc(address, payload, frameStatus, number, table);
      if receivedCrc != expectedCrc {
        Reject(Corruption, diagnostics.(rejectedCrc := diagnostics.rejectedCrc + 1));
        return CrcMismatch, 0, 0;
      }
      if synchronised && now - lastValid > watchdog {
        Reject(UnacceptableDelay, diagnostics.(timeouts := diagnostics.timeouts + 1));
        return Timeout, 0, 0;
      }
      if !synchronised {
        synchronised := true;
      } else {
        var expected: uint32 := (lastNumber + 1) % TWO32;
        if expected == 0 {
          expected := 1;
        }
        if number != expected {
          if number == lastNumber {
            Reject(UnintendedRepetition, diagnostics.(rejectedRepetition := diagnostics.rejectedRepetition + 1));
            return Repetition, 0, 0;
          }
          var delta := SignedGap(number, expected);
          if delta < 0 {
            Reject(IncorrectSequence, diagnostics.(rejectedOutOfOrder := diagnostics.rejectedOutOfOrder + 1));
            return OutOfOrder, 0, 0;
          }
          Reject(Loss, diagnostics.(telegramsLost := diagnostics.telegramsLost + delta,
                                      rejectedSequenceGap := diagnostics.rejectedSequenceGap + 1));
          return SequenceGap, 0, 0;
        }
      }
      CopyInto(payload, payloadOut);
      lastNumber := number;
      lastValid := now;
      diagnostics := diagnostics.(accepted := diagnostics.accepted + 1, lastAccepted := number);
      return Valid, receivedSize, frameStatus;
    }
  }

  // ------------------------------------------------------------------ every verdict, from the bytes

  function Le(raw: seq<byte>, at: nat): int
    requires at + 4 <= |raw|
  {
    WordAt(raw[at], raw[at + 1], raw[at + 2], raw[at + 3])
  }

  function WordAt(a: int, b: int, c: int, d: int): int { a + 256 * b + 65536 * c + 16777216 * d }

  function After(last: int): int { if last == 4294967295 then 1 else last + 1 }

  /** The tests of one call, in order, on the bytes themselves. */
  predicate TooShortOrLong(raw: seq<byte>, capacity: nat) { |raw| < 9 || |raw| > 73 || |raw| - 9 > capacity }

  predicate Corrupt(r: State, raw: seq<byte>)
    requires |raw| >= 9
  {
    Le(raw, |raw| - 4) != Crc32.Checksum(Hashed(r.address, raw[..|raw| - 4]))
  }

  /** How far the number is ahead of the one expected, modulo 2^32. */
  function Ahead(r: State, raw: seq<byte>): int
    requires |raw| >= 9
  {
    (Le(raw, |raw| - 8) - After(r.lastNumber)) % 4294967296
  }

  predicate Overdue(r: State, now: int) { r.synchronised && now - r.lastValid > r.watchdog }

  /** Latched with this fault, nothing else changed but the counters. */
  function Stopped(r: State, fault: TransmissionFault, d: Diagnostics): State {
    State(r.address, r.watchdog, r.lastValid, r.lastNumber, r.synchronised, true, fault, d)
  }

  /** Which verdict a call reaches, which fault it latches and which counter it moves. */
  lemma ReceiveLaw(r: State, raw: seq<byte>, now: int, capacity: nat)
    ensures var v, s, d := Judge(r, raw, now, capacity), AfterReceive(r, raw, now, capacity), r.diagnostics;
      if r.safe then v == InSafeState && s == r
      else if TooShortOrLong(raw, capacity) then
        v == Malformed && s == Stopped(r, Corruption, d.(rejectedMalformed := d.rejectedMalformed + 1))
      else if Corrupt(r, raw) then
        v == CrcMismatch && s == Stopped(r, Corruption, d.(rejectedCrc := d.rejectedCrc + 1))
      else if Overdue(r, now) then
        v == Timeout && s == Stopped(r, UnacceptableDelay, d.(timeouts := d.timeouts + 1))
      else if !r.synchronised || Ahead(r, raw) == 0 then
        && v == Valid && !s.safe && s.lastFault == r.lastFault && s.synchronised && s.lastValid == now
        && s.lastNumber == Le(raw, |raw| - 8) && s.address == r.address && s.watchdog == r.watchdog
        && s.diagnostics == d.(accepted := d.accepted + 1, lastAccepted := s.lastNumber)
      else if Le(raw, |raw| - 8) == r.lastNumber then
        v == Repetition && s == Stopped(r, UnintendedRepetition, d.(rejectedRepetition := d.rejectedRepetition + 1))
      else if Ahead(r, raw) >= 2147483648 then
        v == OutOfOrder && s == Stopped(r, IncorrectSequence, d.(rejectedOutOfOrder := d.rejectedOutOfOrder + 1))
      else
        v == SequenceGap && s == Stopped(r, Loss, d.(
          rejectedSequenceGap := d.rejectedSequenceGap + 1, telegramsLost := d.telegramsLost + Ahead(r, raw)))
  {
    hide Crc32.Checksum;
    if !TooShortOrLong(raw, capacity) {
      FieldsRead(r, raw);
      AheadIsGap(NumberOf(raw), r.lastNumber);
    }
  }

  lemma FieldsRead(r: State, raw: seq<byte>)
    requires |raw| >= 9
    ensures NumberOf(raw) == Le(raw, |raw| - 8) && (CrcMatches(r.address, raw) <==> !Corrupt(r, raw))
  {
    hide Crc32.Checksum;
    hide Body;
    ParsedBody(raw);
  }

  lemma AheadIsGap(number: uint32, last: uint32)
    ensures After(last) == Succ(last)
    ensures var a := (number - After(last)) % 4294967296;
      && (a == 0 <==> number == Succ(last)) && (SignedGap(number, Succ(last)) < 0 <==> a >= 2147483648)
      && (a < 2147483648 ==> SignedGap(number, Succ(last)) == a)
  {}

  /** A poll: latched stays latched, a synchronised receiver past its watchdog latches Loss, and anything
      else is valid and changes nothing. */
  lemma PollLaw(r: State, now: int)
    ensures
      if r.safe then PollStatus(r, now) == InSafeState && AfterPoll(r, now) == r
      else if Overdue(r, now) then
        && PollStatus(r, now) == Timeout
        && AfterPoll(r, now) == Stopped(r, Loss, r.diagnostics.(timeouts := r.diagnostics.timeouts + 1))
      else PollStatus(r, now) == Valid && AfterPoll(r, now) == r
  {}

  /** An acknowledgement forgets the fault and the number, and keeps the diagnostics. */
  lemma AcknowledgeLaw(r: State, now: int)
    ensures AfterAcknowledge(r, now) == State(r.address, r.watchdog, now, 0, false, false, NoFault, r.diagnostics)
    ensures Fresh(r.address, r.watchdog)
            == State(r.address, r.watchdog, 0, 0, false, false, NoFault, Diagnostics(0, 0, 0, 0, 0, 0, 0, 0, 0))
  {}

  // ------------------------------------------------------------------ runs

  datatype Event = Receive(raw: seq<byte>, now: int, capacity: nat) | Poll(now: int) | Acknowledge(now: int)

  function Apply(r: State, e: Event): State {
    match e
    case Receive(raw, now, capacity) => AfterReceive(r, raw, now, capacity)
    case Poll(now) => AfterPoll(r, now)
    case Acknowledge(now) => AfterAcknowledge(r, now)
  }

  /** The state after the first k events of a run. */
  function StateAt(r: State, run: seq<Event>, k: nat): State
    requires k <= |run|
  {
    if k == 0 then r else Apply(StateAt(r, run, k - 1), run[k - 1])
  }

  predicate Accepts(r: State, e: Event) { e.Receive? && Judge(r, e.raw, e.now, e.capacity) == Valid }

  predicate AcceptedAt(r: State, run: seq<Event>, k: nat) { k < |run| && Accepts(StateAt(r, run, k), run[k]) }

  predicate QuietBetween(run: seq<Event>, i: nat, k: nat) {
    forall j | i <= j < k && j < |run| :: !run[j].Acknowledge?
  }

  /** What an acceptance leaves behind survives until the next acceptance or acknowledgement. */
  lemma {:induction false} AcceptanceRemembered(r: State, run: seq<Event>, i: nat, k: nat)
    requires i < k <= |run| && AcceptedAt(r, run, i) && QuietBetween(run, i, k)
    requires forall j | i < j < k :: !AcceptedAt(r, run, j)
    ensures var s := StateAt(r, run, k);
            s.synchronised && s.lastNumber == NumberOf(run[i].raw) && s.lastValid == run[i].now && s.watchdog == r.watchdog
    decreases k
  {
    hide CrcMatches;
    WatchdogFixed(r, run, k);
    if k > i + 1 {
      AcceptanceRemembered(r, run, i, k - 1);
      assert !AcceptedAt(r, run, k - 1);
    }
  }

  lemma {:induction false} WatchdogFixed(r: State, run: seq<Event>, k: nat)
    requires k <= |run|
    ensures StateAt(r, run, k).watchdog == r.watchdog && StateAt(r, run, k).address == r.address
  {
    hide Judge;
    if k > 0 { WatchdogFixed(r, run, k - 1); }
  }

  /** Between two acknowledgements the accepted telegrams form an unbroken chain: each carries the
      successor of the number accepted before it and arrives within the watchdog. */
  lemma AcceptedChain(r: State, run: seq<Event>, i: nat, k: nat)
    requires i < k && AcceptedAt(r, run, i) && AcceptedAt(r, run, k) && QuietBetween(run, i, k)
    requires forall j | i < j < k :: !AcceptedAt(r, run, j)
    ensures NumberOf(run[k].raw) == Succ(NumberOf(run[i].raw)) != 0
    ensures run[k].now - run[i].now <= r.watchdog
  {
    hide CrcMatches;
    AcceptanceRemembered(r, run, i, k);
  }

  /** Once latched, nothing is accepted and nothing changes until an acknowledgement. */
  lemma {:induction false} LatchedUntilAcknowledged(r: State, run: seq<Event>, i: nat, k: nat)
    requires i <= k <= |run| && StateAt(r, run, i).safe && QuietBetween(run, i, k)
    ensures StateAt(r, run, k) == StateAt(r, run, i)
    ensures forall j | i <= j < k :: !AcceptedAt(r, run, j)
    decreases k
  {
    hide CrcMatches;
    hide SequenceVerdict;
    hide SignedGap;
    if k > i {
      LatchedUntilAcknowledged(r, run, i, k - 1);
    }
  }

  // ------------------------------------------------------------------ silence

  /** The telegram the watchdog is running on: the last one accepted before event k, with no
      acknowledgement since. */
  predicate WatchedSince(r: State, run: seq<Event>, i: nat, k: nat) {
    i < k <= |run| && AcceptedAt(r, run, i) && QuietBetween(run, i, k) && forall j | i < j < k :: !AcceptedAt(r, run, j)
  }

  /** A receiver is synchronised exactly when something was accepted since the last acknowledgement. */
  lemma {:induction false} FindWatched(r: State, run: seq<Event>, k: nat) returns (i: nat)
    requires !r.synchronised && k <= |run| && StateAt(r, run, k).synchronised
    ensures WatchedSince(r, run, i, k)
  {
    hide Apply;
    hide Accepts;
    i := k - 1;
    ChainStep(StateAt(r, run, k - 1), run[k - 1]);
    Unsynchronises(StateAt(r, run, k - 1), run[k - 1]);
    if !AcceptedAt(r, run, k - 1) { i := FindWatched(r, run, k - 1); }
  }

  lemma Unsynchronises(r: State, e: Event)
    ensures e.Acknowledge? ==> !Apply(r, e).synchronised && !Accepts(r, e)
  {}

  /** Exactly when a poll detects silence: a telegram accepted since the last acknowledgement is the
      latest one and lies more than the watchdog back. */
  lemma PollDetectsSilence(address: SafetyAddress, watchdog: int, run: seq<Event>, k: nat)
    requires k < |run| && run[k].Poll? && !StateAt(Fresh(address, watchdog), run, k).safe
    ensures LatchesAt(Fresh(address, watchdog), run, k) <==>
            exists i: nat :: WatchedSince(Fresh(address, watchdog), run, i, k) && run[k].now - run[i].now > watchdog
  {
    hide Accepts;
    hide AfterReceive;
    var r := Fresh(address, watchdog);
    WatchdogFixed(r, run, k);
    forall i: nat | WatchedSince(r, run, i, k)
      ensures StateAt(r, run, k).synchronised && StateAt(r, run, k).lastValid == run[i].now
    {
      AcceptanceRemembered(r, run, i, k);
    }
    if StateAt(r, run, k).synchronised { var i := FindWatched(r, run, k); }
  }

  /** So silence goes unnoticed from power-on, and again after every acknowledgement, until the next
      acceptance: no poll latches, however late. */
  lemma SilenceUnnoticed(address: SafetyAddress, watchdog: int, run: seq<Event>, a: nat, k: nat)
    requires a <= k < |run| && run[k].Poll? && !StateAt(Fresh(address, watchdog), run, k).safe
    requires a == 0 || run[a - 1].Acknowledge?
    requires forall j | a <= j < k :: !AcceptedAt(Fresh(address, watchdog), run, j)
    ensures !LatchesAt(Fresh(address, watchdog), run, k)
  {
    hide StateAt;
    hide Accepts;
    hide AcceptedAt;
    PollDetectsSilence(address, watchdog, run, k);
  }

  /** An acknowledgement, then nothing but polls, an hour apart or a year: still not latched. */
  lemma SilenceExample(address: SafetyAddress, watchdog: int, late: int)
    ensures !StateAt(Fresh(address, watchdog), [Acknowledge(0), Poll(late)], 2).safe
  {
    var r, run := Fresh(address, watchdog), [Acknowledge(0), Poll(late)];
    assert StateAt(r, run, 1) == AfterAcknowledge(r, 0);
  }

  // ------------------------------------------------------------------ counters

  function Rejections(d: Diagnostics): nat {
    d.rejectedMalformed + d.rejectedCrc + d.rejectedRepetition + d.rejectedSequenceGap + d.rejectedOutOfOrder + d.timeouts
  }

  predicate LatchesAt(r: State, run: seq<Event>, k: nat) {
    k < |run| && !StateAt(r, run, k).safe && StateAt(r, run, k + 1).safe
  }

  /** How often the latch was set by the first k events. */
  function Latchings(r: State, run: seq<Event>, k: nat): nat
    requires k <= |run|
  {
    if k == 0 then 0 else Latchings(r, run, k - 1) + (if LatchesAt(r, run, k - 1) then 1 else 0)
  }

  /** How many of the first k events were acceptances. */
  function Acceptances(r: State, run: seq<Event>, k: nat): nat
    requires k <= |run|
  {
    if k == 0 then 0 else Acceptances(r, run, k - 1) + (if AcceptedAt(r, run, k - 1) then 1 else 0)
  }

  /** Conservation: the rejection and timeout counters add up to the number of times the latch was
      set, and the acceptance counter to the number of acceptances. */
  lemma {:induction false} CountersBalance(r: State, run: seq<Event>, k: nat)
    requires k <= |run|
    ensures Rejections(StateAt(r, run, k).diagnostics) == Rejections(r.diagnostics) + Latchings(r, run, k)
    ensures StateAt(r, run, k).diagnostics.accepted == r.diagnostics.accepted + Acceptances(r, run, k)
  {
    hide Apply;
    hide Accepts;
    hide Rejections;
    if k > 0 {
      CountersBalance(r, run, k - 1);
      OneEventCounts(StateAt(r, run, k - 1), run[k - 1]);
    }
  }

  lemma OneEventCounts(r: State, e: Event)
    ensures var s := Apply(r, e);
            && Rejections(s.diagnostics) == Rejections(r.diagnostics) + (if !r.safe && s.safe then 1 else 0)
            && s.diagnostics.accepted == r.diagnostics.accepted + (if Accepts(r, e) then 1 else 0)
  {
    hide CrcMatches;
    hide SequenceVerdict;
  }

  /** Over a whole stretch without acknowledgement: the n-th telegram accepted after telegram i
      carries the n-th successor of its number. */
  lemma {:induction false} ChainOverRun(r: State, run: seq<Event>, i: nat, k: nat)
    requires i < k <= |run| && AcceptedAt(r, run, i) && QuietBetween(run, i, k)
    ensures Acceptances(r, run, i + 1) <= Acceptances(r, run, k)
    ensures var s := StateAt(r, run, k);
            && s.synchronised
            && s.lastNumber == NumberAt(NumberOf(run[i].raw), Acceptances(r, run, k) - Acceptances(r, run, i + 1))
    ensures AcceptedAt(r, run, k) ==>
              NumberOf(run[k].raw) == NumberAt(NumberOf(run[i].raw), Acceptances(r, run, k) - Acceptances(r, run, i + 1) + 1)
    decreases k
  {
    hide Apply;
    hide Accepts;
    hide NumberOf;
    ChainStep(StateAt(r, run, k - 1), run[k - 1]);
    if k < |run| { ChainStep(StateAt(r, run, k), run[k]); }
    if k > i + 1 { ChainOverRun(r, run, i, k - 1); }
  }

  /** One event: only an acceptance moves the number, and to the successor once synchronised. */
  lemma ChainStep(r: State, e: Event)
    ensures Accepts(r, e) ==> Apply(r, e).synchronised && Apply(r, e).lastNumber == NumberOf(e.raw)
    ensures Accepts(r, e) && r.synchronised ==> NumberOf(e.raw) == Succ(r.lastNumber)
    ensures !Accepts(r, e) && !e.Acknowledge? ==>
              Apply(r, e).synchronised == r.synchronised && Apply(r, e).lastNumber == r.lastNumber
  {
    hide CrcMatches;
    hide SignedGap;
  }

  // ------------------------------------------------------------------ replay

  /** The same frame, offered again at event k with a buffer that can hold it. */
  predicate Replays(run: seq<Event>, i: nat, k: nat) {
    i < k < |run| && run[i].Receive? && run[k].Receive? && run[k].raw == run[i].raw && WellSized(run[k].raw, run[k].capacity)
  }

  /** Over every run: exactly when a frame once accepted is accepted again. The receiver must not be
      latched; and if anything was accepted since the last acknowledgement, the frame must carry the
      successor of the latest such number and come within the watchdog of it. If nothing was, no more is
      asked. */
  lemma ReplayAccepted(address: SafetyAddress, watchdog: int, run: seq<Event>, i: nat, k: nat)
    requires Replays(run, i, k) && AcceptedAt(Fresh(address, watchdog), run, i)
    ensures AcceptedAt(Fresh(address, watchdog), run, k) <==>
            && !StateAt(Fresh(address, watchdog), run, k).safe
            && forall j: nat | WatchedSince(Fresh(address, watchdog), run, j, k) ::
                 run[k].now - run[j].now <= watchdog && NumberOf(run[k].raw) == Succ(NumberOf(run[j].raw))
  {
    hide StateAt;
    hide CrcMatches;
    hide NumberOf;
    hide SignedGap;
    var r := Fresh(address, watchdog);
    WatchdogFixed(r, run, i);
    WatchdogFixed(r, run, k);
    var s := StateAt(r, run, k);
    forall j: nat | WatchedSince(r, run, j, k)
      ensures j < |run| && s.synchronised && s.lastNumber == NumberOf(run[j].raw) && s.lastValid == run[j].now
    {
      Remembered(r, run, j, k);
    }
    if s.synchronised { var j := FindWatched(r, run, k); }
  }

  lemma Remembered(r: State, run: seq<Event>, j: nat, k: nat)
    requires WatchedSince(r, run, j, k)
    ensures j < |run| && run[j].Receive? && |run[j].raw| >= OVERHEAD_BYTES
    ensures var s := StateAt(r, run, k); s.synchronised && s.lastNumber == NumberOf(run[j].raw) && s.lastValid == run[j].now
  {
    hide CrcMatches;
    hide StateAt;
    AcceptanceRemembered(r, run, j, k);
  }

  /** Without an acknowledgement in between, that takes a full turn of the numbers: in time and not
      latched, the frame is accepted again exactly after a multiple of 2^32 - 1 acceptances, counted
      from its own, and one that carries zero never. */
  lemma ReplayNeedsFullTurn(address: SafetyAddress, watchdog: int, run: seq<Event>, i: nat, k: nat)
    requires Replays(run, i, k) && AcceptedAt(Fresh(address, watchdog), run, i) && QuietBetween(run, i, k)
    ensures var r := Fresh(address, watchdog);
      && Acceptances(r, run, i + 1) <= Acceptances(r, run, k)
      && (AcceptedAt(r, run, k) <==>
            && !StateAt(r, run, k).safe && run[k].now - StateAt(r, run, k).lastValid <= watchdog
            && NumberOf(run[i].raw) != 0
            && (Acceptances(r, run, k) - Acceptances(r, run, i + 1) + 1) % 0xFFFF_FFFF == 0)
  {
    hide StateAt;
    hide Acceptances;
    hide CrcMatches;
    hide NumberOf;
    hide SignedGap;
    var r := Fresh(address, watchdog);
    WatchdogFixed(r, run, i);
    WatchdogFixed(r, run, k);
    ChainOverRun(r, run, i, k);
    TurnOfNumbers(NumberOf(run[i].raw), Acceptances(r, run, k) - Acceptances(r, run, i + 1) + 1);
  }

  lemma TurnOfNumbers(start: uint32, n: nat)
    requires n > 0
    ensures NumberAt(start, n) == start <==> start != 0 && n % 0xFFFF_FFFF == 0
    ensures NumberAt(start, n) == Succ(NumberAt(start, n - 1))
  {
    EmitsZero(start, n);
    if start != 0 { ClosedTurn(start, n); }
  }

  lemma ClosedTurn(start: uint32, n: nat)
    requires n > 0 && start != 0
    ensures NumberAt(start, n) == start <==> n % 0xFFFF_FFFF == 0
  {
    hide NumberAt;
    NumberAtClosedForm(start, n);
    var e, m := start - 1, 0xFFFF_FFFF;
    var q := (e + n) / m;
    assert e + n == q * m + (e + n) % m;
    if (e + n) % m == e {
      ModUnique(n, m, q, 0);
    }
    if n % m == 0 {
      assert n == (n / m) * m;
      ModUnique(e + n, m, n / m, e);
    }
  }

  /** Accepted, acknowledged, accepted again: whatever the address, the frame and the times. */
  lemma ReplayExample(address: SafetyAddress, watchdog: int, payload: seq<byte>, status: byte, number: uint32, later: int)
    requires |payload| <= MAX_PAYLOAD_BYTES
    ensures var offer := Receive(Frame(address, payload, status, number), 0, MAX_PAYLOAD_BYTES);
            var run := [offer, Acknowledge(later), offer.(now := later)];
            AcceptedAt(Fresh(address, watchdog), run, 0) && AcceptedAt(Fresh(address, watchdog), run, 2)
  {
    hide CrcMatches;
    hide Frame;
    var r := Fresh(address, watchdog);
    ParsedFrame(address, payload, status, number);
    var offer := Receive(Frame(address, payload, status, number), 0, MAX_PAYLOAD_BYTES);
    var run := [offer, Acknowledge(later), offer.(now := later)];
    assert StateAt(r, run, 0) == r;
    assert StateAt(r, run, 1) == Apply(r, offer);
    assert StateAt(r, run, 2) == AfterAcknowledge(StateAt(r, run, 1), later);
  }

  // ------------------------------------------------------------------ sequence verdicts

  /** The verdict on an intact, timely telegram matches the order in which it was sent, across the
      wrap of the consecutive number. `i` is the ordinal last accepted, `j` the ordinal offered. */
  lemma VerdictMatchesSendOrder(start: uint32, i: nat, j: nat)
    requires start != 0 && -0x7FFF_FFFE <= j - (i + 1) <= 0x7FFF_FFFE
    ensures SequenceVerdict(NumberAt(start, i), NumberAt(start, j)) ==
            if j == i + 1 then Valid else if j == i then Repetition else if j < i then OutOfOrder else SequenceGap
    ensures j > i + 1 ==>
              SignedGap(NumberAt(start, j), NumberAt(start, i + 1))
              == j - i - 1 + (if NumberAt(start, j) < NumberAt(start, i + 1) then 1 else 0)
  {
    hide SignedGap;
    NumberAtClosedForm(start, i);
    NumberAtClosedForm(start, i + 1);
    NumberAtClosedForm(start, j);
    var n := 0xFFFF_FFFF;
    var e, d := start - 1 + i + 1, j - (i + 1);
    WrapCases(e, d, n);
    WrapCases(e, -1, n);
    SignedGapCases(NumberAt(start, j), NumberAt(start, i + 1));
  }

  lemma SignedGapCases(number: uint32, expected: uint32)
    ensures var d := number - expected;
            SignedGap(number, expected) ==
            if d < -0x8000_0000 then d + TWO32 else if d >= 0x8000_0000 then d - TWO32 else d
  {}

  lemma WrapCases(e: int, d: int, n: int)
    requires n > 0 && e >= 0 && -n < d < n
    ensures (e + d) % n == e % n + d || (e + d) % n == e % n + d + n || (e + d) % n == e % n + d - n
  {
    var q := e / n;
    assert e == q * n + e % n;
    var t := e % n + d;
    var s := if t < 0 then -1 else if t >= n then 1 else 0;
    assert e + d == (q + s) * n + (t - s * n);
    ModUnique(e + d, n, q + s, t - s * n);
  }

  /** The same for the receiver as a whole. */
  lemma IntactTelegramJudged(r: State, start: uint32, i: nat, j: nat, payload: seq<byte>, status: byte, now: int, capacity: nat)
    requires start != 0 && -0x7FFF_FFFE <= j - (i + 1) <= 0x7FFF_FFFE
    requires !r.safe && r.synchronised && r.lastNumber == NumberAt(start, i) && now - r.lastValid <= r.watchdog
    requires |payload| <= MAX_PAYLOAD_BYTES && |payload| <= capacity
    ensures var raw := Frame(r.address, payload, status, NumberAt(start, j));
            && Judge(r, raw, now, capacity) ==
               (if j == i + 1 then Valid else if j == i then Repetition else if j < i then OutOfOrder else SequenceGap)
            && AfterReceive(r, raw, now, capacity).diagnostics.telegramsLost == r.diagnostics.telegramsLost +
               (if j > i + 1 then j - i - 1 + (if NumberAt(start, j) < NumberAt(start, i + 1) then 1 else 0) else 0)
  {
    hide CrcMatches;
    hide Frame;
    hide SequenceVerdict;
    ParsedFrame(r.address, payload, status, NumberAt(start, j));
    VerdictMatchesSendOrder(start, i, j);
  }

  /** The count is one too many across the wrap: one telegram lost, two counted. */
  lemma LostCountExample()
    ensures NumberAt(0xFFFF_FFFE, 2) == 1 && SignedGap(NumberAt(0xFFFF_FFFE, 2), NumberAt(0xFFFF_FFFE, 1)) == 2
  {
    assert NumberAt(0xFFFF_FFFE, 1) == 0xFFFF_FFFF;
  }

  // ------------------------------------------------------------------ corruption and masquerade

  /** Every burst of up to 32 bits inside payload, status and number, or inside the checksum field,
      is reported as a checksum mismatch by any receiver that is not already latched. */
  lemma BurstReported(r: State, payload: seq<byte>, status: byte, number: uint32, raw: seq<byte>, at: nat, width: nat,
                      now: int, capacity: nat)
    requires !r.safe && WellSized(raw, capacity)
    requires |raw| == |payload| + OVERHEAD_BYTES && raw != Frame(r.address, payload, status, number)
    requires width <= 32
    requires Crc32.DifferOnlyInside(Crc32.MessageBits(raw),
                                    Crc32.MessageBits(Frame(r.address, payload, status, number)), at, width)
    requires at + width <= 8 * (|raw| - 4) || 8 * (|raw| - 4) <= at
    ensures Judge(r, raw, now, capacity) == CrcMismatch
  {
    hide CrcMatches;
    Authenticity.BurstRejected(r.address, payload, status, number, raw, at, width);
  }

  /** What a dead transport delivers. */
  predicate AllZeroes(raw: seq<byte>) { forall i | 0 <= i < |raw| :: raw[i] == 0 }

  lemma ZeroFrameMatches(address: SafetyAddress, raw: seq<byte>)
    requires |raw| >= OVERHEAD_BYTES && AllZeroes(raw)
    ensures CrcMatches(address, raw) <==>
            address.signature == Authenticity.SignatureFor(address.source, address.destination, raw[..|raw| - 4], 0)
  {
    hide BodyCrc;
    hide Body;
    hide Authenticity.SignatureFor;
    ParsedBody(raw);
    Authenticity.UniqueSignature(address, raw[..|raw| - 4], 0);
  }

  /** A synchronised receiver never accepts an all-zeroes frame. An unsynchronised one does, for
      exactly one of the 2^32 parameter signatures. */
  lemma ZeroFrameJudged(r: State, raw: seq<byte>, now: int, capacity: nat)
    requires !r.safe && WellSized(raw, capacity) && AllZeroes(raw)
    ensures r.synchronised ==> Judge(r, raw, now, capacity) != Valid
    ensures !r.synchronised ==>
              (Judge(r, raw, now, capacity) == Valid <==>
               r.address.signature ==
               Authenticity.SignatureFor(r.address.source, r.address.destination, raw[..|raw| - 4], 0))
  {
    hide CrcMatches;
    hide Authenticity.SignatureFor;
    hide SignedGap;
    ZeroFrameMatches(r.address, raw);
  }
}
