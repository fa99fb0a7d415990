/**
 The bounded producer-consumer queue as interleaved steps of any number of threads.

 A step is one action on shared memory: a semaphore, a mutex, a slot or a ring pointer.
 */
module PCQueue {
  import opened Arithmetic
  import opened Wrappers

  /** What is queued: in this program, pointers. */
  type Value = nat

  /** Where a thread is in a call.  A thrown assignment gives the slot back. */
  datatype Pc =
    | Idle
    | ProduceWait(v: Value) | ProduceLock(v: Value) | ProduceWrite(v: Value) | ProduceAdvance | ProduceUnlock
    | ProducePost | ProduceThrown
    | ConsumeWait | ConsumeLock | ConsumeRead | ConsumeAdvance(v: Value) | ConsumeUnlock(v: Value)
    | ConsumePost(v: Value) | ConsumeThrown

  predicate Producing(pc: Pc) {
    && !pc.ConsumeWait? && !pc.ConsumeLock? && !pc.ConsumeRead? && !pc.ConsumeAdvance? && !pc.ConsumeUnlock?
    && !pc.ConsumePost? && !pc.ConsumeThrown?
  }

  /** `written` and `read` record the values in the order they were put into and taken out of slots. */
  datatype State = State(
    empty: nat, used: nat, storage: seq<Value>, produceAt: nat, consumeAt: nat,
    produceLock: Option<nat>, consumeLock: Option<nat>, threads: seq<Pc>,
    written: seq<Value>, read: seq<Value>)

  ghost predicate Init(s: State) {
    && s.empty == |s.storage| && s.used == 0 && s.produceAt == s.consumeAt == 0
    && s.produceLock == s.consumeLock == None && s.written == s.read == []
    && forall i :: 0 <= i < |s.threads| ==> s.threads[i].Idle?
  }

  function Advance(at: nat, size: nat): (next: nat) {
    if at + 1 == size then 0 else at + 1
  }

  /** Thread `i` moves on from where it is, to `pc`. */
  function At(s: State, i: nat, pc: Pc): (after: State)
    requires i < |s.threads|
  {
    s.(threads := s.threads[i := pc])
  }

  ghost predicate Step(s: State, s': State, i: nat) {
    i < |s.threads| &&
    match s.threads[i]
    case Idle => s' == At(s, i, ConsumeWait) || exists v :: s' == At(s, i, ProduceWait(v))
    case ProduceWait(v) => s.empty > 0 && s' == At(s, i, ProduceLock(v)).(empty := s.empty - 1)
    case ProduceLock(v) => s.produceLock == None && s' == At(s, i, ProduceWrite(v)).(produceLock := Some(i))
    case ProduceWrite(v) =>
      || (s.produceAt < |s.storage| &&
          s' == At(s, i, ProduceAdvance).(storage := s.storage[s.produceAt := v], written := s.written + [v]))
      || s' == At(s, i, ProduceThrown).(empty := s.empty + 1)
    case ProduceAdvance => s' == At(s, i, ProduceUnlock).(produceAt := Advance(s.produceAt, |s.storage|))
    case ProduceUnlock => s' == At(s, i, ProducePost).(produceLock := None)
    case ProducePost => s' == At(s, i, Idle).(used := s.used + 1)
    case ProduceThrown => s' == At(s, i, Idle).(produceLock := None)
    case ConsumeWait => s.used > 0 && s' == At(s, i, ConsumeLock).(used := s.used - 1)
    case ConsumeLock => s.consumeLock == None && s' == At(s, i, ConsumeRead).(consumeLock := Some(i))
    case ConsumeRead =>
      || (s.consumeAt < |s.storage| &&
          s' == At(s, i, ConsumeAdvance(s.storage[s.consumeAt])).(read := s.read + [s.storage[s.consumeAt]]))
      || s' == At(s, i, ConsumeThrown).(used := s.used + 1)
    case ConsumeAdvance(v) => s' == At(s, i, ConsumeUnlock(v)).(consumeAt := Advance(s.consumeAt, |s.storage|))
    case ConsumeUnlock(v) => s' == At(s, i, ConsumePost(v)).(consumeLock := None)
    case ConsumePost(v) => s' == At(s, i, Idle).(empty := s.empty + 1)
    case ConsumeThrown => s' == At(s, i, Idle).(consumeLock := None)
  }

  // ----- counting threads

  /** What a thread holds: an empty slot it may write, a written value not yet announced, an announced value it may
      read, or a slot read and not yet given back. */
  datatype Phase = Outside | MayWrite | HasWritten | MayRead | HasRead

  function PhaseOf(pc: Pc): (phase: Phase) {
    match pc
    case ProduceLock(_) => MayWrite
    case ProduceWrite(_) => MayWrite
    case ProduceAdvance => HasWritten
    case ProduceUnlock => HasWritten
    case ProducePost => HasWritten
    case ConsumeLock => MayRead
    case ConsumeRead => MayRead
    case ConsumeAdvance(_) => HasRead
    case ConsumeUnlock(_) => HasRead
    case ConsumePost(_) => HasRead
    case _ => Outside
  }

  function Count(threads: seq<Pc>, p: Phase): (count: nat) {
    if threads == [] then 0 else One(PhaseOf(threads[0]) == p) + Count(threads[1..], p)
  }

  lemma {:induction false} CountMove(threads: seq<Pc>, i: nat, pc: Pc, p: Phase)
    requires i < |threads|
    ensures Count(threads[i := pc], p) + One(PhaseOf(threads[i]) == p) == Count(threads, p) + One(PhaseOf(pc) == p)
  {
    if i == 0 {
      assert threads[0 := pc][1..] == threads[1..];
    } else {
      CountMove(threads[1..], i - 1, pc, p);
      assert threads[i := pc][1..] == threads[1..][i - 1 := pc];
    }
  }

  lemma {:induction false} CountPositive(threads: seq<Pc>, i: nat)
    requires i < |threads|
    ensures Count(threads, PhaseOf(threads[i])) > 0
  {
    if i > 0 { CountPositive(threads[1..], i - 1); }
  }

  lemma {:induction false} CountNone(threads: seq<Pc>, p: Phase)
    requires forall i :: 0 <= i < |threads| ==> PhaseOf(threads[i]) != p
    ensures Count(threads, p) == 0
  {
    if threads != [] { CountNone(threads[1..], p); }
  }

  // ----- the invariant

  predicate HoldsProduceLock(pc: Pc) {
    pc.ProduceWrite? || pc.ProduceAdvance? || pc.ProduceUnlock? || pc.ProduceThrown?
  }

  predicate HoldsConsumeLock(pc: Pc) {
    pc.ConsumeRead? || pc.ConsumeAdvance? || pc.ConsumeUnlock? || pc.ConsumeThrown?
  }

  function Slot(k: nat, size: nat): (slot: nat) {
    if size == 0 then 0 else k % size
  }

  ghost predicate Semaphores(s: State) {
    && |s.read| <= |s.written|
    && s.empty + Count(s.threads, MayWrite) + Count(s.threads, HasRead) + |s.written| - |s.read| == |s.storage|
    && s.used + Count(s.threads, HasWritten) + Count(s.threads, MayRead) == |s.written| - |s.read|
  }

  /** At most one thread is where the lock is held, and the lock knows which. */
  ghost predicate ProduceLocked(threads: seq<Pc>, lock: Option<nat>) {
    && (forall i :: 0 <= i < |threads| ==> (HoldsProduceLock(threads[i]) <==> lock == Some(i)))
    && (lock.Some? ==> lock.value < |threads|)
  }

  ghost predicate ConsumeLocked(threads: seq<Pc>, lock: Option<nat>) {
    && (forall i :: 0 <= i < |threads| ==> (HoldsConsumeLock(threads[i]) <==> lock == Some(i)))
    && (lock.Some? ==> lock.value < |threads|)
  }

  ghost predicate Locks(s: State) {
    ProduceLocked(s.threads, s.produceLock) && ConsumeLocked(s.threads, s.consumeLock)
  }

  /** Written but the pointer not yet advanced. */
  ghost predicate Lagging(s: State) {
    s.produceLock.Some? && s.produceLock.value < |s.threads| && s.threads[s.produceLock.value].ProduceAdvance?
  }

  ghost predicate LaggingRead(s: State) {
    s.consumeLock.Some? && s.consumeLock.value < |s.threads| && s.threads[s.consumeLock.value].ConsumeAdvance?
  }

  ghost predicate Pointers(s: State) {
    && (Lagging(s) ==> |s.written| > 0) && (LaggingRead(s) ==> |s.read| > 0)
    && s.produceAt == Slot(if Lagging(s) then |s.written| - 1 else |s.written|, |s.storage|)
    && s.consumeAt == Slot(if LaggingRead(s) then |s.read| - 1 else |s.read|, |s.storage|)
  }

  /** What was read is what was written first, and what is unread is still in its slot. */
  ghost predicate Contents(s: State) {
    && |s.read| <= |s.written| && s.read == s.written[..|s.read|]
    && forall k :: |s.read| <= k < |s.written| ==>
         Slot(k, |s.storage|) < |s.storage| && s.storage[Slot(k, |s.storage|)] == s.written[k]
  }

  ghost predicate Inv(s: State) {
    Semaphores(s) && Locks(s) && Pointers(s) && Contents(s)
  }

  lemma InitInv(s: State)
    requires Init(s)
    ensures Inv(s)
  {
    CountNone(s.threads, MayWrite);
    CountNone(s.threads, HasWritten);
    CountNone(s.threads, MayRead);
    CountNone(s.threads, HasRead);
  }

  lemma StepThread(s: State, s': State, i: nat)
    requires Step(s, s', i)
    ensures |s'.threads| == |s.threads| && s'.threads == s.threads[i := s'.threads[i]]
    ensures |s'.storage| == |s.storage|
  {}

  /** Empty slots are counted, or held by threads, or taken up by values on their way. */
  lemma EmptyPhases(s: State, s': State, i: nat)
    requires Step(s, s', i)
    ensures var was, now := PhaseOf(s.threads[i]), PhaseOf(s'.threads[i]);
      s'.empty + One(now == MayWrite) + One(now == HasRead) + |s'.written| + |s.read|
      == s.empty + One(was == MayWrite) + One(was == HasRead) + |s.written| + |s'.read|
  {
    // Producers and consumers are separate cases.
    if Producing(s.threads[i]) {
    } else {
    }
  }

  /** And so are values not yet read. */
  lemma UsedPhases(s: State, s': State, i: nat)
    requires Step(s, s', i)
    ensures var was, now := PhaseOf(s.threads[i]), PhaseOf(s'.threads[i]);
      s'.used + One(now == HasWritten) + One(now == MayRead) + |s.written| + |s'.read|
      == s.used + One(was == HasWritten) + One(was == MayRead) + |s'.written| + |s.read|
  {
    // Producers and consumers are separate cases.
    if Producing(s.threads[i]) {
    } else {
    }
  }

  lemma ReadPhases(s: State, s': State, i: nat)
    requires Step(s, s', i)
    ensures |s'.read| == |s.read| || (PhaseOf(s.threads[i]) == MayRead && |s'.read| == |s.read| + 1)
    ensures |s'.written| >= |s.written|
  {}

  lemma StepSemaphores(s: State, s': State, i: nat)
    requires Semaphores(s) && Step(s, s', i)
    ensures Semaphores(s')
  {
    StepThread(s, s', i);
    EmptyPhases(s, s', i);
    UsedPhases(s, s', i);
    ReadPhases(s, s', i);
    hide Count, Step, PhaseOf;
    CountMove(s.threads, i, s'.threads[i], MayWrite);
    CountMove(s.threads, i, s'.threads[i], HasWritten);
    CountMove(s.threads, i, s'.threads[i], MayRead);
    CountMove(s.threads, i, s'.threads[i], HasRead);
    CountPositive(s.threads, i);
  }

  lemma StepProduceLock(s: State, s': State, i: nat)
    requires ProduceLocked(s.threads, s.produceLock) && Step(s, s', i)
    ensures ProduceLocked(s'.threads, s'.produceLock)
  {
    StepThread(s, s', i);
    assert HoldsProduceLock(s.threads[i]) <==> s.produceLock == Some(i);
    ProduceLocks(s, s', i);
    hide Step, HoldsProduceLock;
  }

  /** A lock stays as it was, is taken by thread `i`, or is given back by it. */
  predicate LockMoves(lock: Option<nat>, lock': Option<nat>, i: nat, held: bool, holds: bool) {
    || (lock' == lock && (held <==> holds))
    || (lock == None && lock' == Some(i) && holds)
    || (lock' == None && held && !holds)
  }

  lemma ProduceLocks(s: State, s': State, i: nat)
    requires Step(s, s', i)
    ensures i < |s.threads| == |s'.threads|
    ensures LockMoves(s.produceLock, s'.produceLock, i, HoldsProduceLock(s.threads[i]), HoldsProduceLock(s'.threads[i]))
  {}

  lemma ConsumeLocks(s: State, s': State, i: nat)
    requires Step(s, s', i)
    ensures i < |s.threads| == |s'.threads|
    ensures LockMoves(s.consumeLock, s'.consumeLock, i, HoldsConsumeLock(s.threads[i]), HoldsConsumeLock(s'.threads[i]))
  {}

  lemma StepConsumeLock(s: State, s': State, i: nat)
    requires ConsumeLocked(s.threads, s.consumeLock) && Step(s, s', i)
    ensures ConsumeLocked(s'.threads, s'.consumeLock)
  {
    StepThread(s, s', i);
    assert HoldsConsumeLock(s.threads[i]) <==> s.consumeLock == Some(i);
    ConsumeLocks(s, s', i);
    hide Step, HoldsConsumeLock;
  }

  lemma SlotNext(k: nat, size: nat)
    requires size > 0
    ensures Slot(k + 1, size) == Advance(Slot(k, size), size)
  {
    NextMod(k, size);
  }

  /** Fewer than `size` apart, different positions are in different slots. */
  lemma SlotsDiffer(j: nat, k: nat, size: nat)
    requires j < k < j + size
    ensures Slot(j, size) != Slot(k, size)
  {
    if j % size == k % size {
      assert size * (k / size - j / size) == k - j;
      MultipleSmall(size, k / size - j / size);
    }
  }

  /** Which thread lags changes only with its own steps. */
  lemma StepLagging(s: State, s': State, i: nat)
    requires Locks(s) && Locks(s') && Step(s, s', i)
    ensures Lagging(s') == if HoldsProduceLock(s.threads[i]) then s'.threads[i].ProduceAdvance? else Lagging(s)
    ensures HoldsProduceLock(s.threads[i]) ==> Lagging(s) == s.threads[i].ProduceAdvance?
    ensures LaggingRead(s') == if HoldsConsumeLock(s.threads[i]) then s'.threads[i].ConsumeAdvance? else LaggingRead(s)
    ensures HoldsConsumeLock(s.threads[i]) ==> LaggingRead(s) == s.threads[i].ConsumeAdvance?
  {
    StepThread(s, s', i);
    ProduceLocks(s, s', i);
    ConsumeLocks(s, s', i);
  }

  /** A slot is written, then the pointer moves past it; the same for reading. */
  lemma StepMoves(s: State, s': State, i: nat)
    requires Step(s, s', i)
    ensures |s'.storage| == |s.storage|
    ensures |s'.written| == |s.written| + One(s'.threads[i].ProduceAdvance?)
    ensures |s'.read| == |s.read| + One(s'.threads[i].ConsumeAdvance?)
    ensures s'.produceAt == if s.threads[i].ProduceAdvance? then Advance(s.produceAt, |s.storage|) else s.produceAt
    ensures s'.consumeAt == if s.threads[i].ConsumeAdvance? then Advance(s.consumeAt, |s.storage|) else s.consumeAt
    ensures s.threads[i].ProduceAdvance? ==> !s'.threads[i].ProduceAdvance?
    ensures s.threads[i].ConsumeAdvance? ==> !s'.threads[i].ConsumeAdvance?
    ensures s'.threads[i].ProduceAdvance? ==> HoldsProduceLock(s.threads[i])
    ensures s'.threads[i].ConsumeAdvance? ==> HoldsConsumeLock(s.threads[i])
  {}

  lemma StepPointers(s: State, s': State, i: nat)
    requires Locks(s) && Locks(s') && Pointers(s) && Step(s, s', i)
    requires s.threads[i].ProduceAdvance? || s.threads[i].ConsumeAdvance? ==> |s.storage| > 0
    ensures Pointers(s')
  {
    StepLagging(s, s', i);
    StepMoves(s, s', i);
    assert i < |s.threads| && |s'.threads| == |s.threads| by { StepThread(s, s', i); }
    hide Slot, Locks, Step, Lagging, LaggingRead;
    if |s.storage| > 0 {
      if |s.written| > 0 { SlotNext(|s.written| - 1, |s.storage|); }
      if |s.read| > 0 { SlotNext(|s.read| - 1, |s.storage|); }
    }
  }

  /** With a value's slot to write, fewer values are unread than there are slots; with one to read, some are unread. */
  lemma RoomOrValue(s: State, i: nat)
    requires Semaphores(s) && i < |s.threads|
    ensures PhaseOf(s.threads[i]) == MayWrite ==> |s.written| < |s.read| + |s.storage|
    ensures PhaseOf(s.threads[i]) == MayRead ==> |s.read| < |s.written|
    ensures PhaseOf(s.threads[i]) != Outside ==> |s.storage| > 0
  {
    CountPositive(s.threads, i);
  }

  /** A write goes to a slot whose value has been read, and a read to the slot of the first unread value. */
  lemma WriteIsSafe(s: State, i: nat)
    requires Inv(s) && i < |s.threads|
    ensures s.threads[i].ProduceWrite? ==>
      && s.produceAt < |s.storage| && s.produceAt == Slot(|s.written|, |s.storage|)
      && forall k :: |s.read| <= k < |s.written| ==> Slot(k, |s.storage|) != s.produceAt
    ensures s.threads[i].ConsumeRead? ==>
      && s.consumeAt < |s.storage| && |s.read| < |s.written| && s.storage[s.consumeAt] == s.written[|s.read|]
  {
    hide Count;
    RoomOrValue(s, i);
    if s.threads[i].ProduceWrite? {
      forall k | |s.read| <= k < |s.written| ensures Slot(k, |s.storage|) != s.produceAt {
        SlotsDiffer(k, |s.written|, |s.storage|);
      }
    }
  }

  /** What a step does to slots and histories. */
  lemma StepStores(s: State, s': State, i: nat)
    requires Step(s, s', i)
    ensures
      || (s'.storage == s.storage && s'.written == s.written && s'.read == s.read)
      || (s.threads[i].ProduceWrite? && s.produceAt < |s.storage| && s'.read == s.read &&
          s'.storage == s.storage[s.produceAt := s.threads[i].v] && s'.written == s.written + [s.threads[i].v])
      || (s.threads[i].ConsumeRead? && s.consumeAt < |s.storage| && s'.storage == s.storage &&
        s'.written == s.written &&
          s'.read == s.read + [s.storage[s.consumeAt]])
  {}

  lemma StepContents(s: State, s': State, i: nat)
    requires Inv(s) && Step(s, s', i)
    ensures Contents(s')
  {
    WriteIsSafe(s, i);
    StepStores(s, s', i);
    assert i < |s.threads|;
    hide Step, Slot, Semaphores, Locks, Pointers;
  }

  lemma StepInv(s: State, s': State, i: nat)
    requires Inv(s) && Step(s, s', i)
    ensures Inv(s')
  {
    hide Count, Slot, Contents, Pointers, Semaphores, ProduceLocked, ConsumeLocked;
    RoomOrValue(s, i);
    StepSemaphores(s, s', i);
    StepProduceLock(s, s', i);
    StepConsumeLock(s, s', i);
    StepPointers(s, s', i);
    StepContents(s, s', i);
  }

  // ----- every run

  /** A run of the queue: from an empty queue, at each step some thread moves. */
  ghost predicate Run(run: seq<State>) {
    && run != [] && Init(run[0])
    && forall n :: 0 < n < |run| ==> Next(run[n-1], run[n])
  }

  ghost predicate Next(s: State, s': State) {
    exists i: nat :: Step(s, s', i)
  }

  lemma {:induction false} RunInv(run: seq<State>, n: nat)
    requires Run(run) && n < |run|
    ensures Inv(run[n])
  {
    hide Init, Inv, Step;
    if n == 0 {
      InitInv(run[0]);
    } else {
      RunInv(run, n - 1);
      assert Next(run[n-1], run[n]);
      var i: nat :| Step(run[n-1], run[n], i);
      StepInv(run[n-1], run[n], i);
    }
  }

  /** First in, first out: the j-th value read is the j-th written; and no more are unread than fit. */
  lemma Fifo(run: seq<State>, n: nat)
    requires Run(run) && n < |run|
    ensures var s := run[n];
      && |s.read| <= |s.written| <= |s.read| + |s.storage|
      && forall j :: 0 <= j < |s.read| ==> s.read[j] == s.written[j]
  {
    RunInv(run, n);
  }

  /** A reader and a writer at their slots at the same time are at different slots. */
  lemma ReaderApartFromWriter(run: seq<State>, n: nat, writer: nat, reader: nat)
    requires Run(run) && n < |run| && writer < |run[n].threads| && reader < |run[n].threads|
    requires run[n].threads[writer].ProduceWrite? && run[n].threads[reader].ConsumeRead?
    ensures run[n].produceAt != run[n].consumeAt
  {
    hide Slot;
    var s := run[n];
    RunInv(run, n);
    WriteIsSafe(s, writer);
    WriteIsSafe(s, reader);
    assert Locks(s) && Pointers(s);
    assert s.consumeLock == Some(reader) && !LaggingRead(s);
  }

  /** The unread values: what the queue holds. */
  function Queued(s: State): (values: seq<Value>)
    requires |s.read| <= |s.written|
  {
    s.written[|s.read|..]
  }

  /** Each step leaves the queue alone, adds a value at the end when there is room, or takes the first value. */
  lemma StepIsQueueStep(s: State, s': State, i: nat)
    requires Inv(s) && Step(s, s', i)
    ensures Inv(s')
    ensures
      || Queued(s') == Queued(s)
      || (|Queued(s)| < |s.storage| && exists v :: Queued(s') == Queued(s) + [v])
      || (Queued(s) != [] && Queued(s') == Queued(s)[1..] && s'.read == s.read + [Queued(s)[0]])
  {
    StepInv(s, s', i);
    StepStores(s, s', i);
    RoomOrValue(s, i);
    WriteIsSafe(s, i);
    hide Step, Inv;
    if s.threads[i].ProduceWrite? && s'.written == s.written + [s.threads[i].v] && s'.read == s.read {
      assert Queued(s') == Queued(s) + [s.threads[i].v];
    }
  }

  // ----- progress

  /** The thread can go on without an exception. */
  ghost predicate CanStep(s: State, i: nat) {
    exists s' :: Step(s, s', i) && !s'.threads[i].ProduceThrown? && !s'.threads[i].ConsumeThrown?
  }

  lemma MayCall(s: State, i: nat, v: Value)
    requires i < |s.threads| && s.threads[i].Idle?
    ensures Step(s, At(s, i, ProduceWait(v)), i) && Step(s, At(s, i, ConsumeWait), i)
  {}

  /** When nothing in progress can go on, every call under way is waiting: producers for a full queue to drain, or
      consumers for an empty one to fill, never both.  The other threads are free to make either call. */
  lemma StuckOnlyWhenFullOrEmpty(s: State)
    requires Inv(s)
    requires forall i :: 0 <= i < |s.threads| && !s.threads[i].Idle? ==> !CanStep(s, i)
    ensures forall i: nat, v :: i < |s.threads| && s.threads[i].Idle? ==> Step(s, At(s, i, ProduceWait(v)), i)
    ensures forall i: nat :: i < |s.threads| && s.threads[i].Idle? ==> Step(s, At(s, i, ConsumeWait), i)
    ensures forall i :: 0 <= i < |s.threads| ==>
      s.threads[i].Idle? || s.threads[i].ProduceWait? || s.threads[i].ConsumeWait?
    ensures (exists i :: 0 <= i < |s.threads| && s.threads[i].ProduceWait?) ==> |s.written| == |s.read| + |s.storage|
    ensures (exists i :: 0 <= i < |s.threads| && s.threads[i].ConsumeWait?) ==> |s.written| == |s.read|
  {
    forall i: nat, v | i < |s.threads| && s.threads[i].Idle? { MayCall(s, i, v); }
    hide Count, Slot, Step;
    forall i | 0 <= i < |s.threads|
      ensures s.threads[i].Idle? || s.threads[i].ProduceWait? || s.threads[i].ConsumeWait?
      ensures s.threads[i].ProduceWait? ==> s.empty == 0
      ensures s.threads[i].ConsumeWait? ==> s.used == 0
    {
      if !s.threads[i].Idle? { LockHolders(s, i); }
    }
    CountNone(s.threads, MayWrite);
    CountNone(s.threads, HasWritten);
    CountNone(s.threads, MayRead);
    CountNone(s.threads, HasRead);
  }

  /** Unless it waits for a semaphore, a thread can move or the holder of the lock it wants can. */
  lemma LockHolders(s: State, i: nat)
    requires Inv(s) && i < |s.threads| && !s.threads[i].Idle?
    requires forall i :: 0 <= i < |s.threads| && !s.threads[i].Idle? ==> !CanStep(s, i)
    ensures s.threads[i].ProduceWait? || s.threads[i].ConsumeWait?
    ensures s.threads[i].ProduceWait? ==> s.empty == 0
    ensures s.threads[i].ConsumeWait? ==> s.used == 0
  {
    hide Count, Slot, Step;
    Moves(s, i);
    if s.threads[i].ProduceLock? && s.produceLock.Some? { Moves(s, s.produceLock.value); }
    if s.threads[i].ConsumeLock? && s.consumeLock.Some? { Moves(s, s.consumeLock.value); }
  }

  predicate WaitsOrLocks(pc: Pc) {
    pc.ProduceWait? || pc.ConsumeWait? || pc.ProduceLock? || pc.ConsumeLock?
  }

  lemma Moves(s: State, i: nat)
    requires Inv(s) && i < |s.threads| && !s.threads[i].Idle?
    ensures s.threads[i].ProduceWait? && s.empty > 0 ==> CanStep(s, i)
    ensures s.threads[i].ConsumeWait? && s.used > 0 ==> CanStep(s, i)
    ensures s.threads[i].ProduceLock? && s.produceLock == None ==> CanStep(s, i)
    ensures s.threads[i].ConsumeLock? && s.consumeLock == None ==> CanStep(s, i)
    ensures !WaitsOrLocks(s.threads[i]) ==> CanStep(s, i)
  {
    WriteIsSafe(s, i);
    hide Inv, CanStep;
    if Producing(s.threads[i]) { ProducerMoves(s, i); } else { ConsumerMoves(s, i); }
  }

  lemma ProducerMoves(s: State, i: nat)
    requires i < |s.threads| && !s.threads[i].Idle? && Producing(s.threads[i])
    requires s.threads[i].ProduceWrite? ==> s.produceAt < |s.storage|
    ensures s.threads[i].ProduceWait? && s.empty > 0 ==> CanStep(s, i)
    ensures s.threads[i].ProduceLock? && s.produceLock == None ==> CanStep(s, i)
    ensures !WaitsOrLocks(s.threads[i]) ==> CanStep(s, i)
  {
    match s.threads[i]
    case ProduceWait(v) => if s.empty > 0 { assert Step(s, At(s, i, ProduceLock(v)).(empty := s.empty - 1), i); }
    case ProduceLock(v) =>
      assert s.produceLock == None ==> Step(s, At(s, i, ProduceWrite(v)).(produceLock := Some(i)), i);
    case ProduceWrite(v) =>
      assert Step(s, At(s, i, ProduceAdvance).(storage := s.storage[s.produceAt := v], written := s.written + [v]), i);
    case ProduceAdvance => assert Step(s, At(s, i, ProduceUnlock).(produceAt := Advance(s.produceAt, |s.storage|)), i);
    case ProduceUnlock => assert Step(s, At(s, i, ProducePost).(produceLock := None), i);
    case ProducePost => assert Step(s, At(s, i, Idle).(used := s.used + 1), i);
    case ProduceThrown => assert Step(s, At(s, i, Idle).(produceLock := None), i);
    case _ =>
  }

  lemma ConsumerMoves(s: State, i: nat)
    requires i < |s.threads| && !Producing(s.threads[i])
    requires s.threads[i].ConsumeRead? ==> s.consumeAt < |s.storage|
    ensures s.threads[i].ConsumeWait? && s.used > 0 ==> CanStep(s, i)
    ensures s.threads[i].ConsumeLock? && s.consumeLock == None ==> CanStep(s, i)
    ensures !WaitsOrLocks(s.threads[i]) ==> CanStep(s, i)
  {
    match s.threads[i]
    case ConsumeWait => if s.used > 0 { assert Step(s, At(s, i, ConsumeLock).(used := s.used - 1), i); }
    case ConsumeLock => assert s.consumeLock == None ==> Step(s, At(s, i, ConsumeRead).(consumeLock := Some(i)), i);
    case ConsumeRead =>
      assert Step(s, At(s, i, ConsumeAdvance(s.storage[s.consumeAt])).(read := s.read + [s.storage[s.consumeAt]]), i);
    case ConsumeAdvance(v) =>
      assert Step(s, At(s, i, ConsumeUnlock(v)).(consumeAt := Advance(s.consumeAt, |s.storage|)), i);
    case ConsumeUnlock(v) => assert Step(s, At(s, i, ConsumePost(v)).(consumeLock := None), i);
    case ConsumePost(v) => assert Step(s, At(s, i, Idle).(empty := s.empty + 1), i);
    case ConsumeThrown => assert Step(s, At(s, i, Idle).(consumeLock := None), i);
    case _ =>
  }
}
