/** The single-writer, many-reader slot of seqlock_slot.hpp under sequential consistency.

    Readers never write shared memory, so every interleaving of one writer with any number of readers
    is a timeline of memory states, one per atomic store of the writer, together with, for each
    reader, a non-decreasing schedule of the instants at which its atomic loads take effect. */
module Seqlock {
  import opened Bits

  // ------------------------------------------------------------------ packing into words

  /** The object representation of one 64-bit word. */
  type Word = w: seq<byte> | |w| == 8 witness [0, 0, 0, 0, 0, 0, 0, 0]

  function WordCount(size: nat): nat { (size + 7) / 8 }

  function Chunks(bytes: seq<byte>, count: nat): (r: seq<Word>)
    requires |bytes| == 8 * count
    ensures |r| == count
  {
    if count == 0 then [] else [bytes[..8]] + Chunks(bytes[8..], count - 1)
  }

  function Flatten(words: seq<Word>): (r: seq<byte>)
    ensures |r| == 8 * |words|
  {
    if words == [] then [] else words[0] + Flatten(words[1..])
  }

  /** Copying a value into a zeroed staging array, and out again. */
  function Pack(value: seq<byte>): (r: seq<Word>)
    ensures |r| == WordCount(|value|)
  {
    Chunks(value + ZeroBytes(8 * WordCount(|value|) - |value|), WordCount(|value|))
  }

  function Unpack(words: seq<Word>, size: nat): (r: seq<byte>)
    requires |words| == WordCount(size)
    ensures |r| == size
  {
    Flatten(words)[..size]
  }

  lemma {:induction false} FlattenChunks(bytes: seq<byte>, count: nat)
    requires |bytes| == 8 * count
    ensures Flatten(Chunks(bytes, count)) == bytes
  {
    if count > 0 {
      FlattenChunks(bytes[8..], count - 1);
      assert Chunks(bytes, count)[1..] == Chunks(bytes[8..], count - 1);
      assert bytes == bytes[..8] + bytes[8..];
    }
  }

  /** Packing loses nothing, whether or not the size is a multiple of eight. */
  lemma UnpackPack(value: seq<byte>)
    ensures Unpack(Pack(value), |value|) == value
  {
    hide Chunks;
    hide Flatten;
    FlattenChunks(value + ZeroBytes(8 * WordCount(|value|) - |value|), WordCount(|value|));
  }

  // ------------------------------------------------------------------ the writer

  /** Shared memory at one instant. The 64-bit counter holds `count` modulo 2^64. */
  datatype Memory = Memory(count: nat, words: seq<Word>)

  function Register(m: Memory): nat { m.count % TWO64 }

  /** The value after n completed stores; all zero before the first. */
  function Stored(history: seq<seq<byte>>, size: nat, n: nat): (r: seq<byte>)
    requires n <= |history| && forall v | v in history :: |v| == size
    ensures |r| == size
  {
    if n == 0 then ZeroBytes(size) else history[n - 1]
  }

  /** What the writer's protocol guarantees at every instant: the counter never goes back, and
      whenever it is even the words are those of the last completed store. */
  ghost predicate Timeline(timeline: seq<Memory>, history: seq<seq<byte>>, size: nat) {
    && (forall v | v in history :: |v| == size)
    && (forall t | 0 <= t < |timeline| :: |timeline[t].words| == WordCount(size))
    && (forall t, u | 0 <= t <= u < |timeline| :: timeline[t].count <= timeline[u].count)
    && (forall t | 0 <= t < |timeline| && timeline[t].count % 2 == 0 ::
          timeline[t].count / 2 <= |history|
          && timeline[t].words == Pack(Stored(history, size, timeline[t].count / 2)))
  }

  class SeqlockSlot {
    const size: nat
    /** Every state the shared memory has held, oldest first. */
    var timeline: seq<Memory>
    ghost var history: seq<seq<byte>>

    ghost predicate Valid()
      reads this
    {
      && Timeline(timeline, history, size) && timeline != []
      && timeline[|timeline| - 1].count == 2 * |history|
    }

    constructor (size: nat)
      ensures Valid() && this.size == size && history == [] && |timeline| == 1
    {
      this.size := size;
      timeline := [Memory(0, Pack(ZeroBytes(size)))];
      history := [];
    }

    /** Counter to odd, the words one by one, counter to even: a fixed number of atomic stores. */
    method Store(value: seq<byte>)
      requires Valid() && |value| == size
      modifies this
      ensures Valid() && history == old(history) + [value]
      ensures old(timeline) <= timeline && |timeline| == |old(timeline)| + WordCount(size) + 2
    {
      hide Pack;
      hide Timeline;
      hide WordCount;
      LastShape(timeline, history, size);
      var memory := timeline[|timeline| - 1];
      var start := memory.count;
      memory := memory.(count := start + 1);
      ghost var past := timeline;
      timeline := timeline + [memory];
      var staging := Pack(value);
      history := history + [value];
      var index := 0;
      while index < WordCount(size)
        invariant 0 <= index <= WordCount(size)
        invariant history == old(history) + [value]
        invariant past <= timeline && |timeline| == |past| + index + 1
        invariant forall t | |past| <= t < |timeline| :: timeline[t].count == start + 1 && |timeline[t].words| == WordCount(size)
        invariant memory == timeline[|timeline| - 1] && memory.words[..index] == staging[..index]
      {
        memory := memory.(words := memory.words[index := staging[index]]);
        timeline := timeline + [memory];
        index := index + 1;
      }
      assert memory.words == staging;
      memory := memory.(count := start + 2);
      timeline := timeline + [memory];
      Extended(past, timeline, old(history), value, size);
    }
  }

  lemma KeepsStored(past: seq<Memory>, history: seq<seq<byte>>, value: seq<byte>, size: nat)
    requires Timeline(past, history, size) && |value| == size
    ensures Timeline(past, history + [value], size)
  {
    hide Pack;
  }

  lemma LastShape(timeline: seq<Memory>, history: seq<seq<byte>>, size: nat)
    requires Timeline(timeline, history, size) && timeline != []
    ensures |timeline[|timeline| - 1].words| == WordCount(size)
    ensures forall v | v in history :: |v| == size
  {}

  lemma StoredLast(history: seq<seq<byte>>, value: seq<byte>, size: nat)
    requires |value| == size && forall v | v in history :: |v| == size
    ensures Stored(history + [value], size, |history| + 1) == value
  {}

  /** A store in progress, then completed, extends a timeline to a timeline. */
  lemma Extended(past: seq<Memory>, timeline: seq<Memory>, history: seq<seq<byte>>, value: seq<byte>, size: nat)
    requires Timeline(past, history, size) && past != [] && past[|past| - 1].count == 2 * |history| && |value| == size
    requires past <= timeline && |timeline| >= |past| + 1
    requires forall t | |past| <= t < |timeline| - 1 ::
               timeline[t].count == 2 * |history| + 1 && |timeline[t].words| == WordCount(size)
    requires timeline[|timeline| - 1] == Memory(2 * |history| + 2, Pack(value))
    ensures Timeline(timeline, history + [value], size)
  {
    hide Pack;
    hide WordCount;
    hide Stored;
    KeepsStored(past, history, value, size);
    forall t | 0 <= t < |timeline|
      ensures t < |past| ==> timeline[t] == past[t] && timeline[t].count <= 2 * |history|
    {
      if t < |past| { assert past[t].count <= past[|past| - 1].count; }
    }
    StoredLast(history, value, size);
  }

  // ------------------------------------------------------------------ a reader

  predicate Schedule(schedule: seq<nat>, timeline: seq<Memory>) {
    && (forall i | 0 <= i < |schedule| :: schedule[i] < |timeline|)
    && (forall i, j | 0 <= i <= j < |schedule| :: schedule[i] <= schedule[j])
  }

  /** The counter does not run through all of its 2^64 values within `span` loads of one attempt. */
  predicate NoWrap(schedule: seq<nat>, timeline: seq<Memory>, span: nat)
    requires Schedule(schedule, timeline)
  {
    forall i, j | 0 <= i <= j < |schedule| && j - i <= span ::
      timeline[schedule[j]].count - timeline[schedule[i]].count < TWO64
  }

  /** One clean attempt: sample, copy and re-check all saw the same even counter, so the copy is the
      value of the last store completed at every instant in between. */
  lemma CleanCopy(timeline: seq<Memory>, history: seq<seq<byte>>, size: nat, schedule: seq<nat>, first: nat, staging: seq<Word>)
    requires Timeline(timeline, history, size) && Schedule(schedule, timeline)
    requires |staging| == WordCount(size) && first + WordCount(size) + 1 < |schedule|
    requires forall i | 0 <= i < WordCount(size) :: staging[i] == timeline[schedule[first + 1 + i]].words[i]
    requires Register(timeline[schedule[first]]) % 2 == 0
    requires Register(timeline[schedule[first]]) == Register(timeline[schedule[first + WordCount(size) + 1]])
    requires timeline[schedule[first + WordCount(size) + 1]].count - timeline[schedule[first]].count < TWO64
    ensures timeline[schedule[first]].count % 2 == 0
    ensures Unpack(staging, size) == Stored(history, size, timeline[schedule[first]].count / 2)
    ensures forall t | schedule[first] <= t <= schedule[first + WordCount(size) + 1] ::
              timeline[t].count == timeline[schedule[first]].count
  {
    hide Pack;
    hide Unpack;
    var w := WordCount(size);
    var t0, t1 := schedule[first], schedule[first + w + 1];
    var n := timeline[t0].count;
    SameCount(n, timeline[t1].count);
    var value := Stored(history, size, n / 2);
    forall i | 0 <= i < w
      ensures staging[i] == Pack(value)[i]
    {
      var t := schedule[first + 1 + i];
      assert t0 <= t <= t1;
      assert timeline[t].count == n;
    }
    assert staging == Pack(value);
    UnpackPack(value);
  }

  lemma SameCount(a: nat, b: nat)
    requires a <= b && b - a < TWO64 && a % TWO64 == b % TWO64
    ensures a == b && (a % TWO64) % 2 == a % 2
  {}

  /** One round of the retry loop: sample the counter, copy the words, sample again. */
  method TryOnce(timeline: seq<Memory>, size: nat, schedule: seq<nat>, first: nat, ghost history: seq<seq<byte>>)
    returns (clean: bool, value: seq<byte>, loads: nat)
    requires Timeline(timeline, history, size) && Schedule(schedule, timeline)
    requires first + WordCount(size) + 2 <= |schedule| && NoWrap(schedule, timeline, WordCount(size) + 1)
    ensures 0 < loads <= WordCount(size) + 2
    ensures clean <==> timeline[schedule[first]].count % 2 == 0
                       && timeline[schedule[first]].count == timeline[schedule[first + WordCount(size) + 1]].count
    ensures clean ==> value == Stored(history, size, timeline[schedule[first]].count / 2)
  {
    hide Pack;
    hide Unpack;
    hide WordCount;
    hide Register;
    hide Timeline;
    hide NoWrap;
    hide Stored;
    var w := WordCount(size);
    AttemptFacts(timeline, history, size, schedule, first);
    value := [];
    var before := Register(timeline[schedule[first]]);
    RegisterFacts(timeline[schedule[first]], timeline[schedule[first + 1 + w]]);
    if before % 2 != 0 {
      return false, [], 1;
    }
    var staging: seq<Word> := [];
    while |staging| < w
      invariant |staging| <= w
      invariant forall i | 0 <= i < |staging| :: staging[i] == timeline[schedule[first + 1 + i]].words[i]
    {
      staging := staging + [timeline[schedule[first + 1 + |staging|]].words[|staging|]];
    }
    if Register(timeline[schedule[first + 1 + w]]) != before {
      return false, [], w + 2;
    }
    CleanCopy(timeline, history, size, schedule, first, staging);
    return true, Unpack(staging, size), w + 2;
  }

  lemma AttemptFacts(timeline: seq<Memory>, history: seq<seq<byte>>, size: nat, schedule: seq<nat>, first: nat)
    requires Timeline(timeline, history, size) && Schedule(schedule, timeline)
    requires first + WordCount(size) + 2 <= |schedule| && NoWrap(schedule, timeline, WordCount(size) + 1)
    ensures forall t | 0 <= t < |timeline| :: |timeline[t].words| == WordCount(size)
    ensures forall v | v in history :: |v| == size
    ensures timeline[schedule[first + WordCount(size) + 1]].count - timeline[schedule[first]].count < TWO64
    ensures timeline[schedule[first]].count % 2 == 0 ==> timeline[schedule[first]].count / 2 <= |history|
  {
    hide WordCount;
    hide Pack;
    hide Stored;
  }

  lemma RegisterFacts(a: Memory, b: Memory)
    ensures Register(a) % 2 == a.count % 2
    ensures a.count == b.count ==> Register(a) == Register(b)
  {
    SameParity(a.count);
  }

  /** No store took effect during the instants of this schedule. */
  predicate Undisturbed(schedule: seq<nat>, timeline: seq<Memory>)
    requires Schedule(schedule, timeline)
  {
    forall i, j | 0 <= i <= j < |schedule| :: timeline[schedule[i]].count == timeline[schedule[j]].count
  }

  /** An attempt that begins with load `first` meets a store in flight, or one that begins or ends under it. */
  predicate Collides(schedule: seq<nat>, timeline: seq<Memory>, size: nat, first: nat)
    requires Schedule(schedule, timeline)
  {
    && first + WordCount(size) + 1 < |schedule|
    && (timeline[schedule[first]].count % 2 != 0
        || timeline[schedule[first]].count != timeline[schedule[first + WordCount(size) + 1]].count)
  }

  /** Every one of `tries`, one after the other, collided. */
  predicate AllCollide(schedule: seq<nat>, timeline: seq<Memory>, size: nat, tries: seq<nat>)
    requires Schedule(schedule, timeline)
  {
    && (forall a | 0 <= a < |tries| :: Collides(schedule, timeline, size, tries[a]))
    && (forall a, b | 0 <= a < b < |tries| :: tries[a] < tries[b])
  }

  lemma NoneCollide(schedule: seq<nat>, timeline: seq<Memory>, size: nat)
    requires Schedule(schedule, timeline)
    ensures AllCollide(schedule, timeline, size, [])
  {}

  lemma MoreCollide(schedule: seq<nat>, timeline: seq<Memory>, size: nat, tries: seq<nat>, first: nat)
    requires Schedule(schedule, timeline) && AllCollide(schedule, timeline, size, tries)
    requires Collides(schedule, timeline, size, first) && forall t | t in tries :: t < first
    ensures AllCollide(schedule, timeline, size, tries + [first])
  {
    hide Collides;
    assert forall a | 0 <= a < |tries| :: tries[a] in tries;
  }

  /** The call met the writer in every attempt it is allowed. */
  ghost predicate GaveUp(schedule: seq<nat>, timeline: seq<Memory>, size: nat, maxAttempts: nat)
    requires Schedule(schedule, timeline)
  {
    exists tries: seq<nat> :: |tries| == maxAttempts && AllCollide(schedule, timeline, size, tries)
  }

  /** Linearizability: a successful load returns the last store completed at an instant inside the
      call. A failed load leaves `out` alone, is decided after a bounded number of loads, and has met the
      writer in every attempt. Without interference it succeeds at once, or fails for good if the writer
      died in mid-store. */
  method TryLoad(timeline: seq<Memory>, size: nat, schedule: seq<nat>, out: array<byte>, maxAttempts: nat,
                 ghost history: seq<seq<byte>>)
    returns (ok: bool, loads: nat, ghost at: nat)
    requires Timeline(timeline, history, size) && Schedule(schedule, timeline) && out.Length == size
    requires |schedule| == maxAttempts * (WordCount(size) + 2) && NoWrap(schedule, timeline, WordCount(size) + 1)
    modifies out
    ensures loads <= |schedule|
    ensures ok ==> loads > 0 && schedule[0] <= at <= schedule[loads - 1]
                   && timeline[at].count % 2 == 0 && out[..] == Stored(history, size, timeline[at].count / 2)
    ensures !ok ==> out[..] == old(out[..]) && GaveUp(schedule, timeline, size, maxAttempts)
    ensures Undisturbed(schedule, timeline) ==> (ok <==> maxAttempts > 0 && timeline[schedule[0]].count % 2 == 0)
  {
    hide WordCount;
    hide Timeline;
    hide Stored;
    hide AllCollide;
    ok, loads, at := false, 0, 0;
    NoneCollide(schedule, timeline, size);
    if maxAttempts > 0 { RoomForAttempt(0, maxAttempts, WordCount(size) + 2); }
    var attempt := 0;
    ghost var tries: seq<nat> := [];
    while attempt < maxAttempts
      invariant 0 <= attempt <= maxAttempts && loads <= attempt * (WordCount(size) + 2)
      invariant out[..] == old(out[..])
      invariant |tries| == attempt && AllCollide(schedule, timeline, size, tries) && forall t | t in tries :: t < loads
      invariant attempt > 0 && Undisturbed(schedule, timeline) ==> timeline[schedule[0]].count % 2 != 0
    {
      RoomForAttempt(attempt, maxAttempts, WordCount(size) + 2);
      var clean, value, taken := TryOnce(timeline, size, schedule, loads, history);
      at := schedule[loads];
      if !clean {
        MoreCollide(schedule, timeline, size, tries, loads);
        tries := tries + [loads];
      }
      loads := loads + taken;
      if clean {
        CopyInto(value, out);
        return true, loads, at;
      }
      attempt := attempt + 1;
    }
  }

  lemma RoomForAttempt(attempt: nat, maxAttempts: nat, span: nat)
    requires attempt < maxAttempts
    ensures attempt * span + span == (attempt + 1) * span <= maxAttempts * span
  {
    var rest := maxAttempts - attempt - 1;
    assert maxAttempts * span == attempt * span + span + rest * span;
  }

  lemma NeverRegresses(timeline: seq<Memory>, history: seq<seq<byte>>, size: nat, earlier: nat, later: nat)
    requires Timeline(timeline, history, size) && earlier <= later < |timeline|
    ensures timeline[earlier].count / 2 <= timeline[later].count / 2
  {}

  /** The loads one call may make. */
  predicate CallSchedule(schedule: seq<nat>, timeline: seq<Memory>, size: nat, maxAttempts: nat) {
    && |schedule| == maxAttempts * (WordCount(size) + 2) && Schedule(schedule, timeline)
    && NoWrap(schedule, timeline, WordCount(size) + 1)
  }

  /** The loads of successive calls by one reader: each call's after those of the call before. */
  predicate Successive(schedules: seq<seq<nat>>, timeline: seq<Memory>, size: nat, maxAttempts: nat) {
    && (forall i | 0 <= i < |schedules| :: CallSchedule(schedules[i], timeline, size, maxAttempts))
    && (forall i, j, a, b | 0 <= i < j < |schedules| && 0 <= a < |schedules[i]| && 0 <= b < |schedules[j]| ::
          schedules[i][a] <= schedules[j][b])
  }

  datatype Loaded = Collided | Value(bytes: seq<byte>)

  /** A call returned the store that was the latest completed one at instant `at` of the call. */
  ghost predicate Returned(l: Loaded, schedule: seq<nat>, at: nat, store: nat, timeline: seq<Memory>,
                           history: seq<seq<byte>>, size: nat)
    requires Timeline(timeline, history, size)
  {
    && schedule != [] && schedule[0] <= at <= schedule[|schedule| - 1] && at < |timeline|
    && timeline[at].count == 2 * store && store <= |history| && l == Value(Stored(history, size, store))
  }

  predicate InOrder(loaded: seq<Loaded>, stores: seq<nat>) {
    && |loaded| == |stores|
    && forall i, j | 0 <= i <= j < |loaded| && loaded[i].Value? && loaded[j].Value? :: stores[i] <= stores[j]
  }

  lemma LaterReturned(timeline: seq<Memory>, history: seq<seq<byte>>, size: nat, first: seq<nat>, second: seq<nat>,
                      l: Loaded, m: Loaded, at: nat, at': nat, store: nat, store': nat)
    requires Timeline(timeline, history, size)
    requires Returned(l, first, at, store, timeline, history, size) && Returned(m, second, at', store', timeline, history, size)
    requires forall a, b | 0 <= a < |first| && 0 <= b < |second| :: first[a] <= second[b]
    ensures store <= store'
  {
    hide Timeline;
    hide Stored;
    assert first[|first| - 1] <= second[0];
    NeverRegresses(timeline, history, size, at, at');
  }

  lemma CleanReturn(timeline: seq<Memory>, history: seq<seq<byte>>, size: nat, schedule: seq<nat>, loads: nat, at: nat,
                    bytes: seq<byte>)
    requires Timeline(timeline, history, size) && Schedule(schedule, timeline) && 0 < loads <= |schedule|
    requires schedule[0] <= at <= schedule[loads - 1] && timeline[at].count % 2 == 0
    requires bytes == Stored(history, size, timeline[at].count / 2)
    ensures Returned(Value(bytes), schedule, at, timeline[at].count / 2, timeline, history, size)
  {
    hide Pack;
    hide Stored;
  }

  /** Any number of calls by one reader, whatever the writer does meanwhile: each success returns a store
      that was the latest completed one during its call, later calls never return earlier stores, and a
      call fails only after colliding in every attempt. */
  method LoadRepeatedly(timeline: seq<Memory>, size: nat, schedules: seq<seq<nat>>, maxAttempts: nat,
                        ghost history: seq<seq<byte>>)
    returns (loaded: seq<Loaded>, ghost ats: seq<nat>, ghost stores: seq<nat>)
    requires Timeline(timeline, history, size) && Successive(schedules, timeline, size, maxAttempts)
    ensures |loaded| == |ats| == |schedules| && InOrder(loaded, stores)
    ensures forall i | 0 <= i < |loaded| && loaded[i].Value? ::
              Returned(loaded[i], schedules[i], ats[i], stores[i], timeline, history, size)
    ensures forall i | 0 <= i < |loaded| && loaded[i].Collided? :: GaveUp(schedules[i], timeline, size, maxAttempts)
  {
    hide WordCount;
    hide Timeline;
    hide NoWrap;
    hide Stored;
    hide GaveUp;
    hide Returned;
    loaded, ats, stores := [], [], [];
    for n := 0 to |schedules|
      invariant |loaded| == |ats| == n && InOrder(loaded, stores)
      invariant forall i | 0 <= i < n && loaded[i].Value? ::
                  Returned(loaded[i], schedules[i], ats[i], stores[i], timeline, history, size)
      invariant forall i | 0 <= i < n && loaded[i].Collided? :: GaveUp(schedules[i], timeline, size, maxAttempts)
    {
      var buffer := new byte[size];
      var ok, loads, at := TryLoad(timeline, size, schedules[n], buffer, maxAttempts, history);
      ghost var store := 0;
      var result := if ok then Value(buffer[..]) else Collided;
      if ok {
        store := timeline[at].count / 2;
        CleanReturn(timeline, history, size, schedules[n], loads, at, buffer[..]);
        forall i | 0 <= i < n && loaded[i].Value? ensures stores[i] <= store {
          LaterReturned(timeline, history, size, schedules[i], schedules[n], loaded[i], result, ats[i], at, stores[i], store);
        }
      }
      loaded, ats, stores := loaded + [result], ats + [at], stores + [store];
    }
  }

  function Generation(m: Memory): nat { Register(m) / 2 }

  /** A reader tells a fresh value from a repeat by the generation alone: unless 2^63 stores have
      completed in between, it is unchanged exactly when no store has. */
  lemma GenerationTellsFresh(timeline: seq<Memory>, history: seq<seq<byte>>, size: nat, earlier: nat, later: nat)
    requires Timeline(timeline, history, size) && earlier <= later < |timeline|
    requires timeline[later].count / 2 - timeline[earlier].count / 2 < TWO64 / 2
    ensures Generation(timeline[earlier]) == Generation(timeline[later]) <==>
            timeline[earlier].count / 2 == timeline[later].count / 2
  {
    hide Timeline;
    NeverRegresses(timeline, history, size, earlier, later);
    HalfRegister(timeline[earlier].count);
    HalfRegister(timeline[later].count);
    HalfResidues(timeline[earlier].count / 2, timeline[later].count / 2);
  }

  lemma HalfRegister(n: nat)
    ensures n % TWO64 / 2 == n / 2 % (TWO64 / 2)
  {
    var q, r, half := n / TWO64, n % TWO64, TWO64 / 2;
    assert n == 2 * (q * half) + r;
    assert n / 2 == q * half + r / 2;
    ModUnique(n / 2, half, q, r / 2);
  }

  lemma HalfResidues(a: nat, b: nat)
    requires a <= b < a + TWO64 / 2
    ensures a % (TWO64 / 2) == b % (TWO64 / 2) <==> a == b
  {}

  /** A writer that dies leaves a prefix of its timeline, which readers face for ever after. */
  lemma DeadWriter(timeline: seq<Memory>, history: seq<seq<byte>>, size: nat, died: nat)
    requires Timeline(timeline, history, size) && died <= |timeline|
    ensures Timeline(timeline[..died], history, size)
  {}
}
