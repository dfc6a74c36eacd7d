# Verified model of the safeedge runtime

safeedge is a failsafe control runtime in C++20. This project models its hard core in Dafny 4.11 and
proves what that core promises, for all inputs, all runs and all interleavings:

- `Bits`, `Crc32`, `CrcValues`: the CRC-32 (polynomial 0xF4ACFB13, reflected) as a bit-serial register
  over bit strings, its table-driven form and its detection limits; the same register on 32-bit machine
  words, from which the published values follow.
- `Telegram`, `Authenticity`, `Receiver`: the black-channel safety telegram after IEC 61784-3, the
  sender, which altered or foreign frames the checksum lets through, and the latching receiver over
  every run of receive, poll and acknowledge.
- `Supervisor`, `SupervisorRuns`, `DualChannel`: the drive supervisor after IEC 61800-5-2 (STO, SS1,
  SOS, SLS, SLP) and the 1oo2 pair that compares two of them.
- `Seqlock`, `SpscRing`: the snapshot slot and the producer-consumer ring at the granularity of one
  atomic access, under every interleaving.
- `Histogram`, `Executor`: latency percentiles and the drift-free deadline grid.
- `Cadence`: the control cycle on that grid, and why it cannot see its own overruns.
- `Daemon`, `Snapshots`, `Runtime`, `Publisher`: the control cycle that composes sender, receiver and
  supervisor, the snapshot it stores after each cycle, and the OPC UA publisher that accounts for state
  transitions seen through the slot.

Every object the C++ updates in place is a class. Its methods are proved against a step function over
an immutable state (`View()`), and the theorems about runs are proved of that function. `dafny verify
dfyconfig.toml` checks the whole project.

## Conventions

- Times are `int` nanoseconds; speeds and positions are `real`, so measurements are finite. A speed
  limit or position bound may be infinite (`Supervisor.Extended`).
- Consecutive numbers wrap modulo 2^32 and skip zero. Ring positions, the seqlock counter and the
  transition counter wrap modulo 2^64. Statistics counters are unbounded.
- Machine words inside the CRC are strings of 32 bits, least significant first.
- The environment is a parameter: frames offered to the receiver and their times, supervisor inputs,
  callback finish times, the instants at which a reader's loads happen, the operator panel.

## Where code and documentation disagree

The model follows the code. Each disagreement is stated exactly:

- REQ-SAF-021 (no torque before diagnostics pass) is false. A demand or a forced stop during the self
  test leaves it for good, and an acknowledgement then opens the way to torque. `BypassExample` is the
  shortest run; `SelfTestBypassed` proves this happens if and only if the self test was interrupted.
- REQ-SAF-016 (zero is never a valid number, so an all-zeroes frame cannot be a telegram). A sender
  restarted at zero emits it, and only then (`EmitsZero`). A synchronised receiver never accepts an
  all-zeroes frame; an unsynchronised one does for exactly one signature (`ZeroFrameJudged`).
- REQ-SAF-008 and REQ-SAF-009 (foreign traffic is rejected) hold when only the addresses or only the
  signature differ. When both differ they fail: at every other source and destination there is exactly one
  signature that accepts the frames of a given address, whatever they carry (`ForeignCollision`).
- REQ-SAF-006 (silence is detected) fails from power-on and after every acknowledgement until the next
  acceptance (`SilenceUnnoticed`, `SilenceExample`). `PollDetectsSilence` is the exact condition.
- REQ-SAF-003 and REQ-SAF-004 (an accepted or older number is rejected) fail after an acknowledgement,
  because an unsynchronised receiver takes any intact frame (`ReplayExample`). `ReplayAccepted` states
  exactly when a frame once accepted is accepted again; without an acknowledgement it takes a full turn of
  the numbers (`ReplayNeedsFullTurn`).
- REQ-SAF-007 and REQ-SAF-025 (late delivery is rejected, missed deadlines remove torque) fail in the
  daemon. Receiver and supervisor are given period times index, and skipped slots do not advance the
  index, so no stall is ever seen (`StallExample`). `StallsUnseen` states exactly when the decision agrees
  with one taken on the real deadlines.
- REQ-SAF-005 (record how many were missed) is one too high across the wrap, because the unused
  number zero is counted (`VerdictMatchesSendOrder`, `LostCountExample`).
- REQ-SAF-029 (a stop that takes too long reports a fault) fails when the first sample past the limit is
  at standstill (`LateStandstillExample`). `StoppingEnds` states exactly which stops report a fault.
- REQ-SAF-032 (leaving the position band removes torque) fails in the first cycle of a motion segment,
  entered from torque off or from an operating stop. `FirstMotionCycleUnchecked` states exactly when a
  cycle permits motion out of the band; `OutOfBandExample` is a run that does so both ways.
- REQ-SAF-034 (acknowledgement has no effect while the cause is present) holds for demands and fails for
  every monitor fault in every cycle without demand (`AcknowledgeClears`, `AcknowledgeExample`).
- The comment at src/safety/safety_state_machine.cpp:216 says a torque-off request is always honoured,
  from anywhere. It is not while the self test or a controlled stop goes on (`TorqueOffRequest`,
  `TorqueOffDelayedExample`).
- The comment at include/safeedge/safety/dual_channel.hpp:57 says a tolerance of zero faults on the
  first disagreeing cycle. It never does (`LatchNeedsHistory`, `ZeroToleranceExample`).

## Model

| member | source | states |
|---|---|---|
| Crc32.Superposition | src/safety/crc32.cpp:30-39 | the register is linear: absorbing a sum of messages from a sum of states gives the sum of the results |
| Crc32.FeedReversible | src/safety/crc32.cpp:30-39 | every message acts on the register as a bijection, with an explicit inverse on both sides |
| Crc32.TableStep | src/safety/crc32.cpp:30-33 | one table lookup equals eight bit-serial steps, for every state and byte |
| Crc32.MirrorsDivision | include/safeedge/safety/crc32.hpp:39-46 | the reflected register is the mirror image of textbook long division by the published polynomial |
| Crc32.PolynomialsMirror | include/safeedge/safety/crc32.hpp:39-46 | the reflected constant is the bit reversal of the published one |
| Crc32.BurstDetected | src/safety/crc32.cpp:57-61 | messages that differ only inside 32 consecutive bits have equal checksums only if they are equal |
| Crc32.Burst33Undetected | src/safety/crc32.cpp:57-61 | of the 33-bit bursts that flip their first bit, exactly one pattern, the polynomial's own, is missed |
| Crc32.Remainder | src/safety/crc32.cpp:12-20 | the inner loop computes what byte i leaves in an empty register |
| Crc32.BuildTable | src/safety/crc32.cpp:10-24 | all 256 entries are those remainders |
| Crc32.Register.UpdateByte | src/safety/crc32.cpp:30-33 | the table update absorbs one byte bit-serially |
| Crc32.Register.UpdateSpan | src/safety/crc32.cpp:35-39 | a span is absorbed byte by byte, in order |
| Crc32.Register.UpdateUint16 | src/safety/crc32.cpp:41-48 | a 16-bit value is absorbed as its little-endian bytes |
| Crc32.Register.UpdateUint32 | src/safety/crc32.cpp:50-55 | a 32-bit value is absorbed as its little-endian bytes |
| Crc32.Compute | src/safety/crc32.cpp:57-61 | the one-shot form equals the bit-serial reference |
| CrcValues.ShiftWordBits | src/safety/crc32.cpp:12-20 | one shift of a machine word, with the reflected constant 0xC8DF352F, is one step of the bit-string register |
| CrcValues.FeedByte | src/safety/crc32.cpp:30-33 | eight such shifts of the word combined with a byte absorb that byte |
| CrcValues.EmptyChecksum | include/safeedge/safety/crc32.hpp:42-43 | no data has checksum 0 |
| CrcValues.OnesChecksum | src/safety/crc32.cpp:57-61 | four bytes 0xFF have checksum 0xFFFFFFFF |
| CrcValues.CheckValue | include/safeedge/safety/crc32.hpp:46 | the nine digits "123456789" have the published check value 0x1697D06A |
| Bits.ReadOfLe32 | src/safety/black_channel.cpp:9-23 | reading undoes writing a little-endian word |
| Telegram.ParsedBody | src/safety/black_channel.cpp:165-170 | the fields the receiver extracts rebuild exactly the bytes in front of the checksum |
| Telegram.ParsedFrame | src/safety/black_channel.cpp:61-87 | every field of an encoded frame is read back unchanged, and its checksum matches under the sender's address |
| Telegram.ComputeTelegramCrc | src/safety/black_channel.cpp:30-54 | field-by-field hashing equals the checksum of body, source, destination and signature in one piece |
| Telegram.FrameBytes | src/safety/black_channel.cpp:61-87 | the frame byte by byte: payload, status, number and checksum, low bytes first |
| Telegram.HashedBytes | src/safety/black_channel.cpp:30-54 | the eight bytes hashed behind the body by position: source, destination, signature, low bytes first |
| Telegram.NumberAtClosedForm | src/safety/black_channel.cpp:79-86 | the i-th number of a sender started at s is (s - 1 + i) mod (2^32 - 1) + 1, hence never zero |
| Telegram.NumbersRepeat | src/safety/black_channel.cpp:79-86 | the numbers repeat with period 2^32 - 1, so a telegram further off is judged like its residue |
| Telegram.EmitsZero | src/safety/black_channel.cpp:79-86 | a sender emits zero exactly as its first number after a restart at zero |
| Telegram.WriteUint32Le | src/safety/black_channel.cpp:17-23 | four bytes replaced, the rest of the buffer untouched |
| Telegram.SafetySender.constructor | include/safeedge/safety/black_channel.hpp:108-136 | the first telegram carries number 1 |
| Telegram.SafetySender.Encode | src/safety/black_channel.cpp:61-87 | the frame laid out in the buffer, the successor number, bytes behind the frame untouched; an oversized payload is the only refusal and changes nothing |
| Authenticity.AlterationUndetected | src/safety/black_channel.cpp:165-182 | an altered frame passes the checksum if and only if its change to the checksum field is the register image of its change to the rest |
| Authenticity.BurstRejected | src/safety/black_channel.cpp:165-182 | no burst of up to 32 bits within payload, status and number, or within the checksum, passes |
| Authenticity.ForeignFrameAccepted | src/safety/black_channel.cpp:34-53 | a frame made for one address passes at another if and only if the signature difference is the register image of the address difference |
| Authenticity.ForeignCollision | src/safety/black_channel.cpp:34-53 | at each source and destination exactly one signature accepts the frames of a given address, independent of payload, status and number; it is that address's own signature exactly at its own source and destination |
| Authenticity.ForeignFrameRejected | src/safety/black_channel.cpp:34-53 | a different source or destination alone, or a different signature alone, never passes |
| Authenticity.UniqueSignature | src/safety/black_channel.cpp:34-53 | for fixed source, destination and body exactly one signature yields a given checksum |
| Receiver.SafetyReceiver.constructor | include/safeedge/safety/black_channel.hpp:182-231 | unsynchronised, not latched, all counters zero |
| Receiver.SafetyReceiver.Latch | src/safety/black_channel.cpp:94-97 | safe state entered with the fault given, nothing else touched |
| Receiver.SafetyReceiver.AcknowledgeAndReset | src/safety/black_channel.cpp:101-110 | latch, fault and synchronisation cleared, diagnostics kept |
| Receiver.SafetyReceiver.Poll | src/safety/black_channel.cpp:113-130 | silence beyond the watchdog latches Loss on a synchronised receiver, and nothing else does |
| Receiver.SafetyReceiver.Receive | src/safety/black_channel.cpp:135-250 | verdict, new state and diagnostics as specified; the caller's buffer is written on acceptance only, and only its first payload bytes; size and status are zero otherwise |
| Receiver.ReceiveLaw | src/safety/black_channel.cpp:135-250 | from the bytes of the frame alone: which verdict comes first, the fault each latches and the one counter each raises, and what an acceptance stores |
| Receiver.PollLaw | src/safety/black_channel.cpp:113-130 | what each poll reports, latches and counts; a healthy poll reports valid and changes nothing |
| Receiver.AcknowledgeLaw | src/safety/black_channel.cpp:101-110 | what an acknowledgement clears and keeps, and the state at power-on |
| Receiver.AcceptedChain | src/safety/black_channel.cpp:186-243 | between acknowledgements consecutive acceptances carry successor numbers and are no further apart than the watchdog |
| Receiver.ChainOverRun | src/safety/black_channel.cpp:201-243 | the n-th telegram accepted after telegram i carries the n-th successor of its number, over any run |
| Receiver.LatchedUntilAcknowledged | src/safety/black_channel.cpp:143-147 | once latched, state, fault and diagnostics are frozen and nothing is accepted until an acknowledgement |
| Receiver.PollDetectsSilence | src/safety/black_channel.cpp:113-130 | over every run a poll latches if and only if the last telegram accepted since the last acknowledgement exists and lies more than the watchdog back |
| Receiver.SilenceUnnoticed | src/safety/black_channel.cpp:101-122 | with nothing accepted since power-on or the last acknowledgement no poll latches, however late |
| Receiver.SilenceExample | src/safety/black_channel.cpp:101-122 | an acknowledgement followed by a poll at any time at all: not latched |
| Receiver.CountersBalance | src/safety/black_channel.cpp:94-250 | the rejection and timeout counters add up to the number of times the latch was set, the acceptance counter to the acceptances |
| Receiver.ReplayAccepted | src/safety/black_channel.cpp:143-243 | over every run, exactly when a frame once accepted is accepted again: not latched, and the successor of and within the watchdog of the latest telegram accepted since the last acknowledgement, if there is one |
| Receiver.ReplayNeedsFullTurn | src/safety/black_channel.cpp:201-243 | without an acknowledgement in between, a timely replay is accepted exactly after a multiple of 2^32 - 1 acceptances, and never if it carries zero |
| Receiver.ReplayExample | src/safety/black_channel.cpp:101-110 | accepted, acknowledged, accepted again, for every address, frame and time |
| Receiver.VerdictMatchesSendOrder | src/safety/black_channel.cpp:201-238 | valid, repetition, out of order or gap exactly as the send order says, across the wrap; the gap is the number lost, plus one exactly when zero is skipped |
| Receiver.IntactTelegramJudged | src/safety/black_channel.cpp:201-238 | the same for the whole receiver on encoded frames, with the growth of the lost counter |
| Receiver.LostCountExample | src/safety/black_channel.cpp:219-238 | one telegram lost across the wrap is counted as two |
| Receiver.BurstReported | src/safety/black_channel.cpp:165-182 | every such burst is reported as a checksum mismatch by any receiver not already latched |
| Receiver.ZeroFrameJudged | src/safety/black_channel.cpp:201-238 | an all-zeroes frame is never valid once synchronised; before that, for exactly one signature |
| Supervisor.SafetyStateMachine.constructor | src/safety/safety_state_machine.cpp:8-13 | powers on in the self test without a fault |
| Supervisor.SafetyStateMachine.Reset | src/safety/safety_state_machine.cpp:8-13 | back to power-on, limits kept |
| Supervisor.SafetyStateMachine.SetLimits | include/safeedge/safety/safety_state_machine.hpp:190 | only the limits change |
| Supervisor.SafetyStateMachine.EnterSafeTorqueOff | src/safety/safety_state_machine.cpp:16-26 | torque off; the first cause is kept |
| Supervisor.SafetyStateMachine.ForceFault | src/safety/safety_state_machine.cpp:28-30 | the same from outside |
| Supervisor.SafetyStateMachine.OutputsFor | src/safety/safety_state_machine.cpp:58-99 | permissions, speed limit and brake of each state |
| Supervisor.SafetyStateMachine.Advance | src/safety/safety_state_machine.cpp:101-275 | demands before the latch, the latch before monitors, monitors before requests |
| Supervisor.SafetyStateMachine.HonourRequest | src/safety/safety_state_machine.cpp:214-275 | the transition each request causes in each state |
| Supervisor.SafetyStateMachine.Evaluate | src/safety/safety_state_machine.cpp:101-278 | the step taken, and outputs that describe the new state |
| SupervisorRuns.DemandTrips | src/safety/safety_state_machine.cpp:32-56 | every demand takes torque off from every state and latches its own cause unless one is latched already |
| SupervisorRuns.MonitorsTrip | src/safety/safety_state_machine.cpp:152-211 | a sample past its limit takes torque off with exactly that monitor's fault, whatever is requested |
| SupervisorRuns.RequestTargets | src/safety/safety_state_machine.cpp:135-275 | the exact state each request leads to from each state when nothing demands, is latched or trips |
| SupervisorRuns.LatchCauses | src/safety/safety_state_machine.cpp:101-275 | for each fault, exactly which samples, requests and states newly latch it; the self-test and discrepancy faults are never among them |
| SupervisorRuns.OutputsReport | src/safety/safety_state_machine.cpp:58-99 | outputs of each state in numbers; the fault reported is the latched one and limited speed reports its own limit |
| SupervisorRuns.StaysConsistent | src/safety/safety_state_machine.cpp:101-128 | in every run a latched fault means Safe Torque Off |
| SupervisorRuns.RequestBounds | src/safety/safety_state_machine.cpp:101-275 | unless the self test or a controlled stop goes on, which then changes nothing, no cycle ends in a state less restrictive than its request; a demand always ends in latched torque off; more is granted only on a request for motion |
| SupervisorRuns.TorqueOffRequest | src/safety/safety_state_machine.cpp:135-219 | a torque-off request ends in torque off if and only if neither the self test nor a controlled stop goes on, and latches nothing of its own |
| SupervisorRuns.TorqueOffDelayedExample | src/safety/safety_state_machine.cpp:174-194 | a run that keeps torque on through a torque-off request |
| SupervisorRuns.PermissionsOrdered | src/safety/safety_state_machine.cpp:58-99 | states are ordered by what they grant, brake and torque exclude each other, and a latched fault grants nothing |
| SupervisorRuns.RestartNeedsTwoCycles | src/safety/safety_state_machine.cpp:106-128 | between a latched fault and any later torque lies a demand-free acknowledge cycle without torque, then a strictly later cycle requesting motion |
| SupervisorRuns.FirstCauseKept | src/safety/safety_state_machine.cpp:16-26 | until acknowledged, the fault latched and the fault in the outputs are the first one |
| SupervisorRuns.AcknowledgeClears | src/safety/safety_state_machine.cpp:106-128 | an acknowledgement clears a latch exactly without demand: never while the cause is a demand still present, always while it is a monitored condition still present |
| SupervisorRuns.AcknowledgeExample | src/safety/safety_state_machine.cpp:106-128 | overspeed acknowledged at overspeed is no longer latched |
| SupervisorRuns.SelfTestLeft | src/safety/safety_state_machine.cpp:135-150 | the self test lasts exactly until a demand-free pass, a demand or a forced stop |
| SupervisorRuns.TorqueNeedsSelfTest | src/safety/safety_state_machine.cpp:106-150 | torque is preceded by the event that left the self test; that event latched exactly if it was a demand or a forced fault, and then an acknowledgement came in between |
| SupervisorRuns.SelfTestBypassed | src/safety/safety_state_machine.cpp:106-150 | with the self test never passed, a fixed three-cycle continuation gets torque if and only if the self test was interrupted |
| SupervisorRuns.BypassExample | src/safety/safety_state_machine.cpp:106-150 | emergency stop, acknowledge, enable: torque without diagnostics |
| SupervisorRuns.StoppingSegment | src/safety/safety_state_machine.cpp:174-194 | a controlled stop keeps its start time, and every later cycle in it is within the limit and still moving |
| SupervisorRuns.StoppingEnds | src/safety/safety_state_machine.cpp:174-194 | it ends only in torque off, and without a fault exactly at a demand-free standstill sample, however late |
| SupervisorRuns.LateStandstillExample | src/safety/safety_state_machine.cpp:174-194 | a controlled stop that ends without a fault arbitrarily long past its limit |
| SupervisorRuns.OperatingStopSegment | src/safety/safety_state_machine.cpp:160-172 | throughout an operating stop the reference is the entry position and every sample stays within the window and at standstill |
| SupervisorRuns.MotionWithinLimits | src/safety/safety_state_machine.cpp:152-211 | limited-speed outputs come from samples within the limit; monitored motion after the first cycle is in band |
| SupervisorRuns.FirstMotionCycleUnchecked | src/safety/safety_state_machine.cpp:160-274 | a monitored cycle permits motion on an out-of-band sample if and only if it enters motion, from unlatched torque off or from a held operating stop, on a demand-free and admissible request |
| SupervisorRuns.OutOfBandExample | src/safety/safety_state_machine.cpp:204-274 | a run from power-on that permits motion out of the band by both entries |
| DualChannel.DualChannelSupervisor.constructor | include/safeedge/safety/dual_channel.hpp:52-60 | two channels powered on, no disagreement, no latch |
| DualChannel.DualChannelSupervisor.Reset | src/safety/dual_channel.cpp:34-40 | both channels, timer, latch and diagnostics cleared |
| DualChannel.DualChannelSupervisor.EvaluateChannels | src/safety/dual_channel.cpp:42-96 | channels, timer, latch, diagnostics and combined outputs of one cycle |
| DualChannel.InvariantKept | src/safety/dual_channel.cpp:79-93 | in every run a set latch means some channel is still faulted, and a faulted channel has torque off |
| DualChannel.TorqueNeedsBoth | src/safety/dual_channel.cpp:9-32 | torque means both channels permit it, neither is faulted, no demand is active and the latch is clear |
| DualChannel.LatchedDecision | src/safety/dual_channel.cpp:79-93 | a latched discrepancy grants nothing: no torque, no motion, limit zero, brake on, torque off, ChannelDiscrepancy, latched |
| DualChannel.DecisionReports | src/safety/dual_channel.cpp:9-32 | in every run the decision is latched if and only if some channel is faulted after the cycle, and reports the discrepancy, else A's fault, else B's; the permissions are the common ones and the brake is on exactly without torque |
| DualChannel.TripForces | src/safety/dual_channel.cpp:61-70 | setting the latch takes torque off in both channels, and each keeps a fault of its own |
| DualChannel.DisagreementSeen | src/safety/dual_channel.cpp:42-51 | the channels disagree in a cycle exactly if their states differ after it, unless it sets the latch |
| DualChannel.DiagnosticsCount | src/safety/dual_channel.cpp:51-70 | over every run the two counters are the numbers of disagreeing cycles and of cycles that set the latch |
| DualChannel.ClearingCycleStops | src/safety/dual_channel.cpp:79-93 | the cycle that clears the latch permits no torque |
| DualChannel.DiscrepancyRestart | src/safety/dual_channel.cpp:61-93 | after the discrepancy latch is set, torque needs of each channel its own demand-free acknowledgement and then a strictly later request for motion, and no cycle up to the later acknowledgement permits torque |
| DualChannel.OneSidedRestart | src/safety/dual_channel.cpp:61-93 | a run in which one channel is re-enabled before the other is acknowledged and requests torque off when torque returns, so no common enabling cycle is needed |
| DualChannel.TimerHoldsStart | src/safety/dual_channel.cpp:51-60 | the timer holds the time at which the current unbroken disagreement began |
| DualChannel.DiscrepancyTiming | src/safety/dual_channel.cpp:51-77 | the latch is set in a cycle if and only if it was clear and the disagreement that reaches it began more than the tolerance ago |
| DualChannel.LatchNeedsHistory | src/safety/dual_channel.cpp:51-77 | agreement never sets the latch; for tolerance zero or more, neither does the first disagreeing cycle |
| DualChannel.ZeroToleranceExample | src/safety/dual_channel.cpp:51-77 | a run with tolerance zero that disagrees and does not latch |
| DualChannel.LongestIsMaximum | src/safety/dual_channel.cpp:58-63 | the longest disagreement recorded is the maximum over all unbroken runs |
| DualChannel.IdenticalInputs | src/safety/dual_channel.cpp:42-96 | with identical inputs the pair equals one supervisor in state and outputs, and counts no disagreement |
| DualChannel.CombineGrantsSafer | src/safety/dual_channel.cpp:9-32 | combining grants exactly the permissions of the more restrictive state, the speed limit included unless a negative limited speed meets a state without motion |
| Seqlock.UnpackPack | include/safeedge/ipc/seqlock_slot.hpp:74-75 | packing into 8-byte words and back is lossless for every size |
| Seqlock.SeqlockSlot.constructor | include/safeedge/ipc/seqlock_slot.hpp:74-90 | starts all zero with an even counter |
| Seqlock.SeqlockSlot.Store | include/safeedge/ipc/seqlock_slot.hpp:91-146 | a fixed number of atomic stores; at every instant of the resulting timeline an even counter means the words of the last completed store |
| Seqlock.CleanCopy | include/safeedge/ipc/seqlock_slot.hpp:159-188 | equal even samples around a word-by-word copy mean the copy is store number count/2, current throughout |
| Seqlock.TryOnce | include/safeedge/ipc/seqlock_slot.hpp:160-186 | one attempt succeeds exactly if the counter was even and unchanged, and then returns that store |
| Seqlock.TryLoad | include/safeedge/ipc/seqlock_slot.hpp:159-188 | a success returns the latest store completed at an instant inside the call; a failure leaves the output alone, after a bounded number of loads and a collision with the writer in every attempt; undisturbed, it succeeds exactly if no store was in flight |
| Seqlock.LoadRepeatedly | include/safeedge/ipc/seqlock_slot.hpp:148-188 | any number of calls by one reader under any interleaving: each success returns the latest store completed at an instant of its call, later successes never return earlier stores, and a call fails only after colliding in every attempt |
| Seqlock.GenerationTellsFresh | include/safeedge/ipc/seqlock_slot.hpp:190-195 | the generation is unchanged exactly when no store completed, short of 2^63 stores |
| Seqlock.DeadWriter | include/safeedge/ipc/seqlock_slot.hpp:148-155 | a writer that dies anywhere leaves a timeline to which all of the above applies |
| SpscRing.WrappedMask | include/safeedge/concurrent/spsc_ring.hpp:110 | masking a wrapped 64-bit counter gives the unbounded counter modulo the capacity |
| SpscRing.TrueVerdicts | include/safeedge/concurrent/spsc_ring.hpp:77-128 | the wrapped comparisons decide exactly what unbounded counters would |
| SpscRing.InvariantStep | include/safeedge/concurrent/spsc_ring.hpp:77-128 | each atomic step keeps counters ordered, live slots intact and both sides' claims on their slots |
| SpscRing.InvariantKept | include/safeedge/concurrent/spsc_ring.hpp:77-128 | so does every interleaving from the empty ring |
| SpscRing.RefinesFifo | include/safeedge/concurrent/spsc_ring.hpp:77-128 | publishing the write position enqueues below capacity, publishing the read position dequeues the head, every other step leaves the queue alone |
| SpscRing.RefusalsAreGenuine | include/safeedge/concurrent/spsc_ring.hpp:77-119 | a push is refused exactly when the ring is full at the refresh load, a pop exactly when it is empty there |
| SpscRing.NoSharedSlot | include/safeedge/concurrent/spsc_ring.hpp:89-127 | producer and consumer never hold the same slot |
| SpscRing.FifoOverRun | include/safeedge/concurrent/spsc_ring.hpp:77-128 | in every interleaving pushed equals popped followed by the live slots, never more than the capacity |
| SpscRing.OccupancyEstimate | include/safeedge/concurrent/spsc_ring.hpp:97-104 | from either side the estimate is the true difference and at most the capacity; when the consumer has overtaken the stale load it wraps |
| SpscRing.PushAloneEnqueues | include/safeedge/concurrent/spsc_ring.hpp:112-128 | an uninterrupted push enqueues exactly if the queue is not full |
| SpscRing.PopAloneDequeues | include/safeedge/concurrent/spsc_ring.hpp:77-95 | an uninterrupted pop dequeues exactly if the queue is not empty |
| SpscRing.RingBuffer.constructor | include/safeedge/concurrent/spsc_ring.hpp:135-146 | starts empty |
| SpscRing.RingBuffer.TryPush | include/safeedge/concurrent/spsc_ring.hpp:112-128 | the method takes those steps on its array and appends to the contents unless full |
| SpscRing.RingBuffer.TryPop | include/safeedge/concurrent/spsc_ring.hpp:77-95 | the method takes those steps, whatever value moving out leaves in the slot, and removes the head unless empty |
| Histogram.IndexMonotone | src/rt/latency_histogram.cpp:10-24 | larger values never get smaller bucket indices |
| Histogram.IndexOfUint64 | src/rt/latency_histogram.cpp:10-24 | every 64-bit value has one of the 1920 buckets |
| Histogram.UpperIsLargest | src/rt/latency_histogram.cpp:26-36 | the upper bound of a bucket is its largest member |
| Histogram.UpperIsClose | src/rt/latency_histogram.cpp:26-36 | and exceeds no member by more than one part in 32 |
| Histogram.BucketOfRank | src/rt/latency_histogram.cpp:98-109 | the bucket in which the running count reaches k holds the k-th smallest sample |
| Histogram.Rank | src/rt/latency_histogram.cpp:90-96 | the smallest rank from 1 to count that is not below quantile times count, for the quantile brought into 0..1 |
| Histogram.LatencyHistogram.constructor | src/rt/latency_histogram.cpp:70-76 | no samples |
| Histogram.LatencyHistogram.RecordMany | src/rt/latency_histogram.cpp:38-53 | appends the value itself n times, or zero n times if it is negative; buckets, count, sum, minimum and maximum describe the samples |
| Histogram.LatencyHistogram.Record | src/rt/latency_histogram.cpp:55 | appends the one value, zero if it is negative |
| Histogram.LatencyHistogram.Merge | src/rt/latency_histogram.cpp:57-68 | equals recording the other's samples too, even when merging with itself |
| Histogram.LatencyHistogram.Mean | src/rt/latency_histogram.cpp:80-84 | the exact average of everything recorded or merged in, zero if nothing was |
| Histogram.LatencyHistogram.Percentile | src/rt/latency_histogram.cpp:86-111 | the report is at least the order statistic of any sorted copy, at most the maximum, and within 1/32 of it |
| Executor.NextSlotIsLeast | src/rt/cyclic_executor.cpp:125-145 | after a skipped overrun the next deadline is the least grid point strictly after the finish; otherwise the next grid point |
| Executor.SlotLaw | src/rt/cyclic_executor.cpp:94-146 | from finish times and grid alone: a cycle that does not finish before its successor is due is counted as an overrun and, when skipping, followed by the first slot due after its finish; otherwise its successor follows |
| Executor.SlotsConserved | src/rt/cyclic_executor.cpp:94-146 | each grid slot is executed once or skipped once; running late skips none |
| Executor.SlotsIncrease | src/rt/cyclic_executor.cpp:94-146 | no slot is executed twice |
| Executor.CyclicExecutor.Run | src/rt/cyclic_executor.cpp:77-149 | deadlines on the grid and executed, overrun and skipped counts for every sequence of wake-up and finish times; each histogram gains the differences of those times, negative ones as zero; a non-positive period changes nothing |
| Executor.CyclicExecutor.RunCycles | src/rt/cyclic_executor.cpp:94-146 | the loop behind it |
| Executor.CyclicExecutor.Advance | src/rt/cyclic_executor.cpp:122-145 | one cycle counted, overrun detected and the next deadline chosen |
| Executor.LatenciesAdd | src/rt/cyclic_executor.cpp:102-121 | with a monotone clock the total of deadline-to-return times is the total wake-up delay plus the total execution time |
| Executor.CyclicExecutor.SkipPast | src/rt/cyclic_executor.cpp:138-141 | the inner loop ends at the first deadline in the future and counts what it skipped |
| Cadence.TimeFallsBehind | src/apps/safeedged.cpp:487-488 | the time the loop is given lags the real deadline by one period per slot skipped and never catches up |
| Cadence.ShortStallInTime | src/rt/cyclic_executor.cpp:130-141 | the next cycle is really due within the watchdog if and only if the cycle finishes before the grid point the watchdog allows |
| Cadence.StallsUnseen | src/apps/safeedged.cpp:486-514 | the loop's torque decisions do not depend on overruns; taken on the real deadlines they would be withheld exactly after a long stall |
| Cadence.StallExample | src/apps/safeedged.cpp:486-514 | at 1 kHz a stall of a second is followed by a cycle that permits torque |
| Daemon.AllAccepted | src/apps/safeedged.cpp:486-503 | for every sequence of times with no two cycles further apart than the watchdog, every telegram of every run is accepted |
| Daemon.LatchedOnceLate | src/apps/safeedged.cpp:486-503 | once two cycles are further apart, the receiver is latched for good |
| Daemon.LatchedFromCycleOne | src/apps/safeedged.cpp:486-503 | with a longer period the watchdog latches at cycle 1 for good, with one acceptance and one timeout |
| Daemon.PeriodWithinWatchdog | src/apps/safeedged.cpp:292-303 | the period is within the watchdog exactly from 20 Hz on |
| Daemon.FirstTelegram | src/apps/safeedged.cpp:469-502 | the 17 bytes the daemon sends first, checksum 0x419DF1E2 included |
| Daemon.SupervisorFollowsPanel | src/apps/safeedged.cpp:504-514 | the channels agree throughout, and the latch before cycle n is what the panel history says |
| Daemon.TorqueGivenTimes | src/apps/safeedged.cpp:486-514 | for every sequence of times and operator inputs, cycle n permits torque if and only if n is at least 1, the e-stop is clear, each earlier e-stop has an acknowledged e-stop-free cycle strictly between, and no two cycles so far are further apart than the watchdog; until then all outputs are determined by the panel |
| Daemon.TorqueFollowsPanel | src/apps/safeedged.cpp:486-514 | from 20 to 100000 Hz every telegram is accepted, and torque, state, limit, brake and fault follow the panel alone |
| Daemon.TorqueNeverBelow20 | src/apps/safeedged.cpp:486-514 | below 20 Hz no cycle ever permits torque |
| Daemon.SequenceCountsTransitions | src/apps/safeedged.cpp:516-526 | the sequence number is the number of cycles whose state or torque differed from the one before, modulo 2^64 |
| Daemon.ChangesAreShown | src/apps/safeedged.cpp:520-526 | a cycle is counted exactly when state or torque differ from what the cycle before showed |
| Daemon.OddMeansTorque | src/apps/safeedged.cpp:516-526 | from 20 Hz on the sequence number is odd exactly while torque is permitted |
| Daemon.ControlLoop.constructor | src/apps/safeedged.cpp:469-484 | the objects and counters as configured before the first cycle |
| Daemon.ControlLoop.Exchange | src/apps/safeedged.cpp:490-502 | the telegram round trip and its two counters |
| Daemon.ControlLoop.RunCycle | src/apps/safeedged.cpp:486-526 | one cycle of the composed objects is one step of the composed model, and the transition time is renewed exactly on a visible change |
| Daemon.ControlLoop.NoteTransition | src/apps/safeedged.cpp:520-526 | remembers what was shown and counts a difference |
| Snapshots.DecodeLayout | include/safeedge/edge/runtime_snapshot.hpp:27-104 | the record read back from its bytes is the one written, whatever the other fields hold |
| Snapshots.DecodeZero | include/safeedge/edge/runtime_snapshot.hpp:27-104 | a slot nothing was stored in reads as the empty snapshot |
| Snapshots.LayoutBytes | include/safeedge/edge/runtime_snapshot.hpp:27-104 | the byte position of every safety field in the 168-byte record |
| Snapshots.SnapshotNumbers | src/apps/safeedged.cpp:542-547 | the number stored for each state and fault, and one for true, zero for false |
| Snapshots.SnapshotTells | src/apps/safeedged.cpp:542-547 | the integers in a snapshot determine state, fault, torque and latch |
| Runtime.RunAndPublish | src/apps/safeedged.cpp:350-556 | the control thread, an empty store and then one cycle and one store per panel reading, leaves the daemon after all cycles, a slot whose n-th store carries outputs, transition time and transition count of cycle n, and one instant per atomic store for readers to fall into |
| Runtime.CycleAndStore | src/apps/safeedged.cpp:486-556 | one cycle and its store keep daemon, transition time and slot in step |
| Publisher.PollAccounts | src/opcua/events.cpp:92-106 | a poll adds exactly the 64-bit advance of the sequence number to events plus missed counts |
| Publisher.AccountsForAdvance | src/apps/safeedge_opcua.cpp:225-254 | over every run of polls events plus missed counts equal last minus first observed sequence, modulo 2^64 |
| Publisher.AccountsForAll | src/apps/safeedge_opcua.cpp:225-254 | never more than really happened, and all of it if and only if no two successive fresh polls are 2^64 transitions apart |
| Publisher.TransitionsAccounted | src/apps/safeedge_opcua.cpp:225-254 | for polls of a slot that holds the stores of the control loop, events plus missed counts are the state or torque changes between the first and last snapshot observed |
| Publisher.PublishLoop | src/apps/safeedge_opcua.cpp:225-254 | for every interleaving each poll returns the latest store completed at an instant of its own call, or has collided in every attempt; polls never go back, and the events are those the polls call for |
| Publisher.WatchRuntime | src/apps/safeedge_opcua.cpp:225-254 | the publisher on the slot of a run of the control loop, end to end: each fresh poll shows outputs, transition time and transition count of a cycle current in that very call; each event belongs to such a poll and carries torque, state, transition time and count of its cycle and the number of transitions since the fresh poll before; together they account for every transition between the cycles of the first and the last fresh poll |

## Left out

- Weak memory orders, fences and cache-line layout: atomic accesses are sequentially consistent steps.
- NaN, and rounding in `double`: supervisor comparisons, the histogram's sum and mean and the quantile product are over the reals.
- Overflow of 64-bit statistics counters and of nanosecond times: unbounded integers here.
- The claim that five scattered bit errors are always detected: a search result about the polynomial.
- Bursts that straddle the number and the checksum field: only the exact general condition of `AlterationUndetected` is stated.
- Receiver.VerdictMatchesSendOrder: offered and expected ordinals at most 2^31 - 2 apart, beyond which a signed 32-bit distance cannot tell ahead from behind.
- Seqlock.TryLoad: the counter does not run through all 2^64 values within one attempt.
- Supervisor runs with `reset` or `setLimits` in the middle: the run lemmas fix the limits.
- Executor.CyclicExecutor.Run: wake-up and finish times and the allocation report are inputs, a stop request is the end of the input.
- Runtime.RunAndPublish: the statistics, age, uptime and telegram-count fields of the snapshot are arbitrary bytes; layout is that of a 64-bit little-endian target.
- Publisher.PublishLoop: whether the OPC UA stack could fire an event is not part of the bookkeeping.
- Shared memory, threads, sleeping, signals, file watchers, HTTP, metrics, the OPC UA address space, the allocation guard: input and output plumbing.
- Names and string conversion, benchmarks, deployment and traceability scripts: no hard property.
