/** The single-producer, single-consumer ring of spsc_ring.hpp, one step per atomic access, under
    every interleaving of the two sides. The counters are free-running 64-bit registers. */
module SpscRing {
  import opened Bits

  // ------------------------------------------------------------------ index arithmetic

  /** counter & (2^k - 1): the low k bits of the counter. */
  function Mask(counter: nat, k: nat): nat { Value(ToBits(counter, k)) }

  lemma {:induction false} MaskIsMod(counter: nat, k: nat)
    ensures Mask(counter, k) == counter % Pow2(k)
    decreases k
  {
    if k > 0 {
      assert ToBits(counter, k)[1..] == ToBits(counter / 2, k - 1);
      MaskIsMod(counter / 2, k - 1);
      HalfMod(counter, Pow2(k - 1));
    }
  }

  lemma HalfMod(n: nat, p: nat)
    requires p > 0
    ensures n % (2 * p) == n % 2 + 2 * (n / 2 % p)
  {
    var q, r := n / 2 / p, n / 2 % p;
    assert n == 2 * (q * p + r) + n % 2;
    assert n == q * (2 * p) + (2 * r + n % 2);
    ModUnique(n, 2 * p, q, 2 * r + n % 2);
  }

  /** The low bits of a wrapped counter are those of the unbounded one. */
  lemma WrappedMask(counter: nat, k: nat)
    requires k <= 64
    ensures Mask(counter % TWO64, k) == counter % Pow2(k)
  {
    Pow2Splits(k);
    MaskIsMod(counter % TWO64, k);
    ModOfMod(counter, Pow2(k), Pow2(64 - k));
  }

  lemma ModOfMod(n: nat, p: nat, w: nat)
    requires p > 0 && w > 0
    ensures p * w > 0 && n % (p * w) % p == n % p
  {
    var m := p * w;
    var q, r := n / m, n % m;
    assert n == q * m + r;
    assert q * m == (q * w) * p;
    assert r == (r / p) * p + r % p;
    assert (q * w) * p + (r / p) * p == (q * w + r / p) * p;
    ModUnique(n, p, q * w + r / p, r % p);
  }

  lemma Pow2Splits(k: nat)
    requires k <= 64
    ensures Pow2(k) * Pow2(64 - k) == TWO64
  {
    hide Pow2;
    Pow2Sum(k, 64 - k);
    Pow2Sum(32, 32);
    Pow2Widths();
  }

  lemma DistinctSlots(i: nat, j: nat, n: nat)
    requires i < j < i + n
    ensures i % n != j % n
  {
    var d := j / n - i / n;
    assert j - i == d * n + (j % n - i % n) by {
      assert j == (j / n) * n + j % n;
      assert i == (i / n) * n + i % n;
      assert (j / n) * n - (i / n) * n == d * n;
    }
    assert d >= 1 ==> d * n >= n;
    assert d <= 0 ==> d * n <= 0;
  }

  /** Wrapped counters less than 2^64 apart compare like the unbounded ones. */
  lemma WrappedDifference(a: nat, b: nat)
    requires b <= a < b + TWO64
    ensures (a % TWO64 - b % TWO64) % TWO64 == a - b
    ensures a % TWO64 == b % TWO64 <==> a == b
  {}

  // ------------------------------------------------------------------ the two sides as steps

  datatype Producer<T> = Ready | Refreshing(v: T) | Writing(v: T) | Publishing(v: T)

  datatype Consumer<T> = Waiting | Reloading | Reading | Releasing(v: T)

  /** Shared and private fields, and where each side is in its call. Capacity is 2^k. */
  datatype Ring<T> = Ring(
    slots: seq<T>, writePos: nat, readPos: nat, cachedRead: nat, cachedWrite: nat, producer: Producer<T>, consumer: Consumer<T>)

  /** The unbounded history behind the registers. */
  datatype Log<T> = Log(pushed: seq<T>, popped: seq<T>, seenRead: nat, seenWrite: nat)

  datatype System<T> = System(ring: Ring<T>, log: Log<T>)

  datatype Action<T> =
    | CallPush(v: T) | LoadRead | WriteSlot | StoreWrite
    | CallPop | LoadWrite | ReadSlot(left: T) | StoreRead

  predicate Shaped(r: Ring, k: nat) { |r.slots| == Pow2(k) }

  predicate LooksFull(r: Ring, k: nat) { (r.writePos - r.cachedRead) % TWO64 >= Pow2(k) }

  predicate Enabled<T>(r: Ring<T>, a: Action<T>) {
    match a
    case CallPush(_) => r.producer.Ready?
    case LoadRead => r.producer.Refreshing?
    case WriteSlot => r.producer.Writing?
    case StoreWrite => r.producer.Publishing?
    case CallPop => r.consumer.Waiting?
    case LoadWrite => r.consumer.Reloading?
    case ReadSlot(_) => r.consumer.Reading?
    case StoreRead => r.consumer.Releasing?
  }

  function Step<T>(r: Ring<T>, k: nat, a: Action<T>): (next: Ring<T>)
    requires Shaped(r, k) && Enabled(r, a)
    ensures Shaped(next, k)
  {
    match a
    case CallPush(v) => r.(producer := if LooksFull(r, k) then Refreshing(v) else Writing(v))
    case LoadRead =>
      var s := r.(cachedRead := r.readPos);
      s.(producer := if LooksFull(s, k) then Ready else Writing(r.producer.v))
    case WriteSlot =>
      MaskIsMod(r.writePos, k);
      r.(slots := r.slots[Mask(r.writePos, k) := r.producer.v], producer := Publishing(r.producer.v))
    case StoreWrite => r.(writePos := (r.writePos + 1) % TWO64, producer := Ready)
    case CallPop => r.(consumer := if r.readPos == r.cachedWrite then Reloading else Reading)
    case LoadWrite =>
      r.(cachedWrite := r.writePos, consumer := if r.readPos == r.writePos then Waiting else Reading)
    case ReadSlot(left) =>
      MaskIsMod(r.readPos, k);
      r.(slots := r.slots[Mask(r.readPos, k) := left], consumer := Releasing(r.slots[Mask(r.readPos, k)]))
    case StoreRead => r.(readPos := (r.readPos + 1) % TWO64, consumer := Waiting)
  }

  function Record<T>(l: Log<T>, r: Ring<T>, a: Action<T>): Log<T>
    requires Enabled(r, a)
  {
    match a
    case LoadRead => l.(seenRead := |l.popped|)
    case LoadWrite => l.(seenWrite := |l.pushed|)
    case StoreWrite => l.(pushed := l.pushed + [r.producer.v])
    case StoreRead => l.(popped := l.popped + [r.consumer.v])
    case _ => l
  }

  function Next<T>(s: System<T>, k: nat, a: Action<T>): System<T>
    requires Shaped(s.ring, k) && Enabled(s.ring, a)
  {
    System(Step(s.ring, k, a), Record(s.log, s.ring, a))
  }

  // ------------------------------------------------------------------ the invariant

  /** The registers are the unbounded counters modulo 2^64, in the order the protocol promises. */
  predicate Counters(s: System, k: nat) {
    var l := s.log;
    && s.ring.writePos == |l.pushed| % TWO64 && s.ring.readPos == |l.popped| % TWO64
    && s.ring.cachedRead == l.seenRead % TWO64 && s.ring.cachedWrite == l.seenWrite % TWO64
    && l.seenRead <= |l.popped| <= l.seenWrite <= |l.pushed| <= l.seenRead + Pow2(k)
  }

  /** First position whose slot still holds what was pushed there. */
  function FirstLive(s: System): nat { |s.log.popped| + (if s.ring.consumer.Releasing? then 1 else 0) }

  predicate Contents<T(==)>(s: System<T>, k: nat)
    requires Shaped(s.ring, k)
  {
    var l := s.log;
    && l.popped <= l.pushed
    && (forall j | FirstLive(s) <= j < |l.pushed| :: s.ring.slots[j % Pow2(k)] == l.pushed[j])
  }

  predicate Sides<T(==)>(s: System<T>, k: nat)
    requires Shaped(s.ring, k) && Counters(s, k)
  {
    var l := s.log;
    && (s.ring.producer.Writing? || s.ring.producer.Publishing? ==> |l.pushed| < l.seenRead + Pow2(k))
    && (s.ring.producer.Publishing? ==> s.ring.slots[|l.pushed| % Pow2(k)] == s.ring.producer.v)
    && (s.ring.consumer.Reading? || s.ring.consumer.Releasing? ==> |l.popped| < l.seenWrite)
    && (s.ring.consumer.Releasing? ==> s.ring.consumer.v == l.pushed[|l.popped|])
  }

  predicate Invariant<T(==)>(s: System<T>, k: nat) {
    1 <= k <= 63 && Shaped(s.ring, k) && Counters(s, k) && Contents(s, k) && Sides(s, k)
  }

  lemma CapacityFits(k: nat)
    requires k <= 63
    ensures 2 * Pow2(k) <= TWO64
  {
    hide Pow2;
    Pow2Splits(k + 1);
    Pow2Step(k);
    Grows(Pow2(k + 1), Pow2(63 - k));
  }

  lemma Grows(a: nat, b: nat)
    requires b >= 1
    ensures a * b >= a
  {
    assert a * b == a + a * (b - 1);
    assert a * (b - 1) >= 0;
  }

  /** A wrapped comparison decides exactly what the unbounded one would: full, and empty. */
  lemma TrueVerdicts(s: System, k: nat)
    requires Invariant(s, k)
    ensures LooksFull(s.ring, k) <==> |s.log.pushed| - s.log.seenRead >= Pow2(k)
    ensures (s.ring.writePos - s.ring.readPos) % TWO64 == |s.log.pushed| - |s.log.popped| <= Pow2(k)
    ensures s.ring.readPos == s.ring.cachedWrite <==> |s.log.popped| == s.log.seenWrite
    ensures s.ring.readPos == s.ring.writePos <==> |s.log.popped| == |s.log.pushed|
  {
    CapacityFits(k);
    var l := s.log;
    WrappedDifference(|l.pushed|, l.seenRead);
    WrappedDifference(|l.pushed|, |l.popped|);
    WrappedDifference(l.seenWrite, |l.popped|);
  }

  // ------------------------------------------------------------------ every step keeps it

  /** The slot being written holds no element that is still to be read. */
  lemma WriteSlotKeeps<T>(s: System<T>, k: nat)
    requires Invariant(s, k) && s.ring.producer.Writing?
    ensures Invariant(Next(s, k, WriteSlot), k)
  {
    hide Pow2;
    hide Mask;
    var t := Next(s, k, WriteSlot);
    var w := |s.log.pushed|;
    MaskIsMod(s.ring.writePos, k);
    WrappedMask(w, k);
    forall j | FirstLive(s) <= j < w ensures t.ring.slots[j % Pow2(k)] == s.log.pushed[j] {
      DistinctSlots(j, w, Pow2(k));
    }
  }

  /** What is left behind in the slot being read, a moved-from value, disturbs nothing: not the
      other elements and not a write the producer has not yet published. */
  lemma ReadSlotKeeps<T>(s: System<T>, k: nat, left: T)
    requires Invariant(s, k) && s.ring.consumer.Reading?
    ensures Invariant(Next(s, k, ReadSlot(left)), k)
  {
    hide Pow2;
    hide Mask;
    var t := Next(s, k, ReadSlot(left));
    var r := |s.log.popped|;
    MaskIsMod(s.ring.readPos, k);
    WrappedMask(r, k);
    forall j | r < j < |s.log.pushed| ensures t.ring.slots[j % Pow2(k)] == s.log.pushed[j] {
      DistinctSlots(r, j, Pow2(k));
    }
    if s.ring.producer.Publishing? {
      DistinctSlots(r, |s.log.pushed|, Pow2(k));
    }
  }

  lemma StoreWriteKeeps<T>(s: System<T>, k: nat)
    requires Invariant(s, k) && s.ring.producer.Publishing?
    ensures Invariant(Next(s, k, StoreWrite), k)
  {
    hide Pow2;
    hide Mask;
    var t := Next(s, k, StoreWrite);
    WrappedSuccessor(|s.log.pushed|);
    assert s.log.pushed <= t.log.pushed;
  }

  lemma StoreReadKeeps<T>(s: System<T>, k: nat)
    requires Invariant(s, k) && s.ring.consumer.Releasing?
    ensures Invariant(Next(s, k, StoreRead), k)
  {
    hide Pow2;
    hide Mask;
    WrappedSuccessor(|s.log.popped|);
  }

  lemma InvariantStep<T>(s: System<T>, k: nat, a: Action<T>)
    requires Invariant(s, k) && Enabled(s.ring, a)
    ensures Invariant(Next(s, k, a), k)
  {
    hide Pow2;
    hide Mask;
    TrueVerdicts(s, k);
    match a
    case WriteSlot => WriteSlotKeeps(s, k);
    case ReadSlot(left) => ReadSlotKeeps(s, k, left);
    case StoreWrite => StoreWriteKeeps(s, k);
    case StoreRead => StoreReadKeeps(s, k);
    case _ =>
  }

  // ------------------------------------------------------------------ refinement of a bounded FIFO

  /** The elements published and not yet consumed, oldest first. */
  function Queue<T>(s: System<T>): seq<T>
    requires |s.log.popped| <= |s.log.pushed|
  {
    s.log.pushed[|s.log.popped|..]
  }

  /** One step of the ring is one step of a FIFO bounded by 2^k: publishing the write position
      enqueues, publishing the read position dequeues the head and returns it, every other step
      leaves the queue alone. */
  lemma RefinesFifo<T>(s: System<T>, k: nat, a: Action<T>)
    requires Invariant(s, k) && Enabled(s.ring, a)
    ensures Invariant(Next(s, k, a), k)
    ensures |Queue(s)| <= Pow2(k)
    ensures a.StoreWrite? ==> |Queue(s)| < Pow2(k) && Queue(Next(s, k, a)) == Queue(s) + [s.ring.producer.v]
    ensures a.StoreRead? ==> Queue(s) != [] && s.ring.consumer.v == Queue(s)[0] && Queue(Next(s, k, a)) == Queue(s)[1..]
    ensures !a.StoreWrite? && !a.StoreRead? ==> Queue(Next(s, k, a)) == Queue(s)
  {
    hide Pow2;
    hide Mask;
    InvariantStep(s, k, a);
  }

  /** A push is refused exactly when the queue is full at the load that decides it, a pop exactly
      when the queue is empty there; the cached positions alone never refuse anything. */
  lemma RefusalsAreGenuine<T>(s: System<T>, k: nat, a: Action<T>)
    requires Invariant(s, k) && Enabled(s.ring, a)
    ensures a.LoadRead? ==> (Next(s, k, a).ring.producer.Ready? <==> |Queue(s)| == Pow2(k))
    ensures a.LoadWrite? ==> (Next(s, k, a).ring.consumer.Waiting? <==> Queue(s) == [])
    ensures a.CallPush? ==> !Next(s, k, a).ring.producer.Ready? && (|Queue(s)| == Pow2(k) ==> Next(s, k, a).ring.producer.Refreshing?)
    ensures a.CallPop? ==> !Next(s, k, a).ring.consumer.Waiting? && (Queue(s) == [] ==> Next(s, k, a).ring.consumer.Reloading?)
  {
    hide Pow2;
    hide Mask;
    TrueVerdicts(s, k);
  }

  /** The producer and the consumer never have the same slot in hand. */
  lemma NoSharedSlot<T>(s: System<T>, k: nat)
    requires Invariant(s, k)
    requires s.ring.producer.Writing? || s.ring.producer.Publishing?
    requires s.ring.consumer.Reading? || s.ring.consumer.Releasing?
    ensures Mask(s.ring.writePos, k) != Mask(s.ring.readPos, k)
  {
    hide Pow2;
    hide Mask;
    WrappedMask(|s.log.pushed|, k);
    WrappedMask(|s.log.popped|, k);
    DistinctSlots(|s.log.popped|, |s.log.pushed|, Pow2(k));
  }

  // ------------------------------------------------------------------ every interleaving

  function Initial<T>(k: nat, fill: T): System<T> {
    System(Ring(seq(Pow2(k), _ => fill), 0, 0, 0, 0, Ready, Waiting), Log([], [], 0, 0))
  }

  /** The system after the first n scheduled actions; an action whose side is not there yet does nothing. */
  function At<T>(k: nat, fill: T, run: seq<Action<T>>, n: nat): (s: System<T>)
    requires n <= |run|
    ensures Shaped(s.ring, k)
  {
    if n == 0 then Initial(k, fill)
    else
      var s := At(k, fill, run, n - 1);
      if Enabled(s.ring, run[n - 1]) then Next(s, k, run[n - 1]) else s
  }

  lemma {:induction false} InvariantKept<T>(k: nat, fill: T, run: seq<Action<T>>, n: nat)
    requires 1 <= k <= 63 && n <= |run|
    ensures Invariant(At(k, fill, run, n), k)
  {
    hide Pow2;
    if n > 0 {
      InvariantKept(k, fill, run, n - 1);
      var s := At(k, fill, run, n - 1);
      if Enabled(s.ring, run[n - 1]) { InvariantStep(s, k, run[n - 1]); }
    }
  }

  /** In every interleaving what was pushed is what was popped followed by what is in the ring, in
      order, with nothing lost, repeated or reordered, and the ring is never over-full. */
  lemma FifoOverRun<T>(k: nat, fill: T, run: seq<Action<T>>, n: nat)
    requires 1 <= k <= 63 && n <= |run|
    ensures var s := At(k, fill, run, n);
      && |s.log.popped| <= |s.log.pushed|
      && s.log.pushed == s.log.popped + Queue(s) && |Queue(s)| <= Pow2(k)
      && (forall i: nat | i < |Queue(s)| && (i > 0 || !s.ring.consumer.Releasing?) ::
            s.ring.slots[(|s.log.popped| + i) % Pow2(k)] == Queue(s)[i])
  {
    hide Pow2;
    hide At;
    InvariantKept(k, fill, run, n);
  }

  lemma {:induction false} LogGrows<T>(k: nat, fill: T, run: seq<Action<T>>, i: nat, j: nat)
    requires i <= j <= |run|
    ensures At(k, fill, run, i).log.pushed <= At(k, fill, run, j).log.pushed
    ensures At(k, fill, run, i).log.popped <= At(k, fill, run, j).log.popped
    decreases j
  {
    hide Step;
    if i < j { LogGrows(k, fill, run, i, j - 1); }
  }

  function SizeApprox(writePos: nat, readPos: nat): int { (writePos - readPos) % TWO64 }

  /** The occupancy estimate loads the write position at instant i and the read position at a later
      instant j. From either side, where one of the two positions cannot have moved in between, it is
      the difference of the true counters and at most the capacity. From anywhere else the consumer
      may have overtaken the stale write position, and the estimate wraps. */
  lemma OccupancyEstimate<T>(k: nat, fill: T, run: seq<Action<T>>, i: nat, j: nat)
    requires 1 <= k <= 63 && i <= j <= |run|
    ensures
      var early, late := At(k, fill, run, i), At(k, fill, run, j);
      var estimate := SizeApprox(early.ring.writePos, late.ring.readPos);
      var written, consumed := |early.log.pushed|, |late.log.popped|;
      && (early.log.pushed == late.log.pushed || early.log.popped == late.log.popped ==> consumed <= written)
      && (consumed <= written ==> estimate == written - consumed <= Pow2(k))
      && (written < consumed < written + TWO64 ==> estimate == TWO64 - (consumed - written))
  {
    hide Pow2;
    hide At;
    hide Contents;
    hide Sides;
    hide SizeApprox;
    InvariantKept(k, fill, run, i);
    InvariantKept(k, fill, run, j);
    LogGrows(k, fill, run, i, j);
    CapacityFits(k);
    EstimateCases(|At(k, fill, run, i).log.pushed|, |At(k, fill, run, j).log.popped|);
  }

  lemma EstimateCases(written: nat, consumed: nat)
    ensures var e := SizeApprox(written % TWO64, consumed % TWO64);
      && (consumed <= written < consumed + TWO64 ==> e == written - consumed)
      && (written < consumed < written + TWO64 ==> e == TWO64 - (consumed - written))
  {}

  // ------------------------------------------------------------------ one call at a time

  /** A push whose steps are not interleaved with the consumer's. */
  function PushAlone<T>(s: System<T>, k: nat, v: T): System<T>
    requires Shaped(s.ring, k) && s.ring.producer.Ready?
  {
    var called := Next(s, k, CallPush(v));
    var decided := if called.ring.producer.Refreshing? then Next(called, k, LoadRead) else called;
    if decided.ring.producer.Writing? then Next(Next(decided, k, WriteSlot), k, StoreWrite) else decided
  }

  /** A pop whose steps are not interleaved with the producer's; `left` is the moved-from value. */
  function PopAlone<T>(s: System<T>, k: nat, left: T): System<T>
    requires Shaped(s.ring, k) && s.ring.consumer.Waiting?
  {
    var called := Next(s, k, CallPop);
    var decided := if called.ring.consumer.Reloading? then Next(called, k, LoadWrite) else called;
    if decided.ring.consumer.Reading? then
      Next(Next(decided, k, ReadSlot(left)), k, StoreRead)
    else decided
  }

  function Head<T>(r: Ring<T>, k: nat): T
    requires Shaped(r, k)
  {
    MaskIsMod(r.readPos, k);
    r.slots[Mask(r.readPos, k)]
  }

  lemma PushAloneEnqueues<T>(s: System<T>, k: nat, v: T)
    requires Invariant(s, k) && s.ring.producer.Ready?
    ensures var t := PushAlone(s, k, v);
      && Invariant(t, k) && t.ring.producer.Ready? && t.ring.consumer == s.ring.consumer
      && Queue(t) == (if |Queue(s)| < Pow2(k) then Queue(s) + [v] else Queue(s))
  {
    hide Pow2;
    hide Mask;
    hide Contents;
    hide Sides;
    var called := Next(s, k, CallPush(v));
    RefinesFifo(s, k, CallPush(v));
    RefusalsAreGenuine(s, k, CallPush(v));
    var decided := if called.ring.producer.Refreshing? then Next(called, k, LoadRead) else called;
    if called.ring.producer.Refreshing? {
      RefinesFifo(called, k, LoadRead);
      RefusalsAreGenuine(called, k, LoadRead);
    }
    if decided.ring.producer.Writing? {
      RefinesFifo(decided, k, WriteSlot);
      RefinesFifo(Next(decided, k, WriteSlot), k, StoreWrite);
    }
  }

  lemma PopAloneDequeues<T>(s: System<T>, k: nat, left: T)
    requires Invariant(s, k) && s.ring.consumer.Waiting?
    ensures var t := PopAlone(s, k, left);
      && Invariant(t, k) && t.ring.consumer.Waiting? && t.ring.producer == s.ring.producer
      && Queue(t) == (if Queue(s) == [] then [] else Queue(s)[1..])
      && (Queue(s) != [] ==> Head(s.ring, k) == Queue(s)[0])
  {
    hide Pow2;
    hide Mask;
    hide Contents;
    hide Sides;
    var called := Next(s, k, CallPop);
    RefinesFifo(s, k, CallPop);
    RefusalsAreGenuine(s, k, CallPop);
    var decided := if called.ring.consumer.Reloading? then Next(called, k, LoadWrite) else called;
    if called.ring.consumer.Reloading? {
      RefinesFifo(called, k, LoadWrite);
      RefusalsAreGenuine(called, k, LoadWrite);
    }
    if decided.ring.consumer.Reading? {
      RefinesFifo(decided, k, ReadSlot(left));
      RefinesFifo(Next(decided, k, ReadSlot(left)), k, StoreRead);
    }
  }

  /** The ring as an object. Its two methods take the steps of PushAlone and PopAlone. */
  class RingBuffer<T(==)> {
    const k: nat
    const slots: array<T>
    var writePos: nat
    var readPos: nat
    var cachedRead: nat
    var cachedWrite: nat
    ghost var log: Log<T>

    ghost function View(): System<T>
      reads this, slots
    {
      System(Ring(slots[..], writePos, readPos, cachedRead, cachedWrite, Ready, Waiting), log)
    }

    ghost predicate Valid()
      reads this, slots
    {
      Invariant(View(), k)
    }

    constructor (k: nat, fill: T)
      requires 1 <= k <= 63
      ensures Valid() && fresh(slots) && this.k == k && View() == Initial(k, fill) && Queue(View()) == []
    {
      this.k := k;
      slots := new T[Pow2(k)](_ => fill);
      writePos, readPos, cachedRead, cachedWrite := 0, 0, 0, 0;
      log := Log([], [], 0, 0);
      new;
      assert slots[..] == seq(Pow2(k), _ => fill);
    }

    method TryPush(value: T) returns (pushed: bool)
      requires Valid()
      modifies this, slots
      ensures Valid() && View() == PushAlone(old(View()), k, value)
      ensures pushed == (|old(Queue(View()))| < Pow2(k))
      ensures Queue(View()) == old(Queue(View())) + if pushed then [value] else []
    {
      hide Pow2;
      hide Mask;
      hide Invariant;
      ghost var s := View();
      PushAloneEnqueues(s, k, value);
      Decisions(s, k);
      if (writePos - cachedRead) % TWO64 >= Pow2(k) {
        cachedRead := readPos;
        log := log.(seenRead := |log.popped|);
        if (writePos - cachedRead) % TWO64 >= Pow2(k) { return false; }
      }
      MaskIsMod(writePos, k);
      slots[Mask(writePos, k)] := value;
      writePos := (writePos + 1) % TWO64;
      log := log.(pushed := log.pushed + [value]);
      return true;
    }

    /** `out` is the caller's variable, `left` whatever moving out of the slot leaves in it. */
    method TryPop(out: T, left: T) returns (popped: bool, value: T)
      requires Valid()
      modifies this, slots
      ensures Valid() && View() == PopAlone(old(View()), k, left)
      ensures popped == (old(Queue(View())) != [])
      ensures old(Queue(View())) == (if popped then [value] else []) + Queue(View())
      ensures !popped ==> value == out
    {
      hide Pow2;
      hide Mask;
      hide Invariant;
      ghost var s := View();
      PopAloneDequeues(s, k, left);
      Decisions(s, k);
      value := out;
      if readPos == cachedWrite {
        cachedWrite := writePos;
        log := log.(seenWrite := |log.pushed|);
        if readPos == cachedWrite { return false, value; }
      }
      MaskIsMod(readPos, k);
      value := slots[Mask(readPos, k)];
      slots[Mask(readPos, k)] := left;
      readPos := (readPos + 1) % TWO64;
      log := log.(popped := log.popped + [value]);
      return true, value;
    }
  }

  /** What the comparisons of a lone push or pop decide. */
  lemma Decisions<T>(s: System<T>, k: nat)
    requires Invariant(s, k) && s.ring.producer.Ready? && s.ring.consumer.Waiting?
    ensures SizeApprox(s.ring.writePos, s.ring.readPos) == |Queue(s)|
    ensures LooksFull(s.ring, k) || |Queue(s)| < Pow2(k)
    ensures s.ring.readPos == s.ring.writePos <==> Queue(s) == []
    ensures s.ring.readPos == s.ring.cachedWrite || Queue(s) != []
  {
    hide Pow2;
    TrueVerdicts(s, k);
  }
}
