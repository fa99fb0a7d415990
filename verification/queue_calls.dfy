/**
 What the callers of the producer-consumer queue see: the arguments of their calls, the values handed back, and which
 calls threw.

 The calls of a run are recorded beside it, in the order they begin; nothing in the queue depends on the record.
 */
module QueueCalls {
  import opened FiniteSets
  import opened PCQueue
  import opened Wrappers

  datatype Ended = Running | Threw | Done

  datatype Call = Produce(v: Value, ended: Ended) | Consume(out: Option<Value>, ended: Ended)

  /** How far a call has come, and with what value: its argument, or what it will hand back. */
  datatype Stage = NoCall | ToWrite(v: Value) | Wrote | NotWritten | ToRead | Got(out: Value) | NotRead

  function StageOf(pc: Pc): (stage: Stage) {
    match pc
    case Idle => NoCall
    case ProduceWait(v) => ToWrite(v)
    case ProduceLock(v) => ToWrite(v)
    case ProduceWrite(v) => ToWrite(v)
    case ProduceAdvance => Wrote
    case ProduceUnlock => Wrote
    case ProducePost => Wrote
    case ProduceThrown => NotWritten
    case ConsumeWait => ToRead
    case ConsumeLock => ToRead
    case ConsumeRead => ToRead
    case ConsumeAdvance(v) => Got(v)
    case ConsumeUnlock(v) => Got(v)
    case ConsumePost(v) => Got(v)
    case ConsumeThrown => NotRead
  }

  predicate Ending(stage: Stage) {
    stage.Wrote? || stage.NotWritten? || stage.Got? || stage.NotRead?
  }

  /** A value is written as it was given, handed back as it was read, and neither changes on the way. */
  predicate Moved(s: State, s': State, was: Stage, now: Stage) {
    || (s'.written == s.written && s'.read == s.read &&
        (was == now || (was.NoCall? && (now.ToWrite? || now.ToRead?)) || (Ending(was) && now.NoCall?) ||
         (was.ToWrite? && now.NotWritten?) || (was.ToRead? && now.NotRead?)))
    || (was.ToWrite? && now.Wrote? && s'.written == s.written + [was.v] && s'.read == s.read)
    || (was.ToRead? && now.Got? && s'.written == s.written && s'.read == s.read + [now.out])
  }

  lemma StepMoved(s: State, s': State, i: nat)
    requires Step(s, s', i)
    ensures i < |s.threads| && |s'.threads| == |s.threads| && s'.threads == s.threads[i := s'.threads[i]]
    ensures Moved(s, s', StageOf(s.threads[i]), StageOf(s'.threads[i]))
  {
    // Producers and consumers are separate cases.
    if Producing(s.threads[i]) {
    } else {
    }
  }

  // ----- the record

  /** `current` is the call each thread is in; `writers` and `readers` are the calls that wrote and that read, in the
      order they did. */
  datatype Trace = Trace(s: State, calls: seq<Call>, current: seq<nat>, writers: seq<nat>, readers: seq<nat>)

  function Returned(call: Call, was: Stage): (returned: Call) {
    match was
    case Got(v) => Consume(Some(v), Done)
    case Wrote => call.(ended := Done)
    case _ => call.(ended := Threw)
  }

  /** The record after thread `i` has moved on to `s'`. */
  function Recorded(t: Trace, s': State, i: nat): (t': Trace)
    requires i < |t.s.threads| == |s'.threads| == |t.current|
    requires StageOf(t.s.threads[i]) != NoCall ==> t.current[i] < |t.calls|
  {
    var was, now, c := StageOf(t.s.threads[i]), StageOf(s'.threads[i]), t.current[i];
    if was == now then t.(s := s')
    else match now
      case ToWrite(v) => t.(s := s', calls := t.calls + [Produce(v, Running)], current := t.current[i := |t.calls|])
      case ToRead => t.(s := s', calls := t.calls + [Consume(None, Running)], current := t.current[i := |t.calls|])
      case Wrote => t.(s := s', writers := t.writers + [c])
      case Got(_) => t.(s := s', readers := t.readers + [c])
      case NoCall => t.(s := s', calls := t.calls[c := Returned(t.calls[c], was)])
      case _ => t.(s := s')
  }

  ghost predicate AtStage(t: Trace, stage: Stage, c: nat) {
    !stage.NoCall? ==>
      && c < |t.calls| && t.calls[c].ended == Running
      && match stage
         case NoCall => true
         case ToWrite(v) => t.calls[c] == Produce(v, Running) && c !in t.writers
         case Wrote => t.calls[c].Produce? && c in t.writers
         case NotWritten => t.calls[c].Produce? && c !in t.writers
         case Got(v) => t.calls[c].Consume? && exists j :: 0 <= j < |t.readers| && ReadAt(t, j, c, v)
         case _ => t.calls[c].Consume? && c !in t.readers
  }

  predicate ReadAt(t: Trace, j: nat, c: nat, v: Value) {
    j < |t.readers| && j < |t.s.read| && t.readers[j] == c && t.s.read[j] == v
  }

  predicate InCall(t: Trace, i: nat) {
    i < |t.s.threads| && StageOf(t.s.threads[i]) != NoCall
  }

  ghost predicate Threads(t: Trace) {
    && |t.current| == |t.s.threads|
    && (forall i :: 0 <= i < |t.current| ==> AtStage(t, StageOf(t.s.threads[i]), t.current[i]))
    && (forall i, k :: 0 <= i < k < |t.current| && InCall(t, i) && InCall(t, k) ==> t.current[i] != t.current[k])
  }

  /** The j-th write is by a call given that value. */
  predicate WriteBy(t: Trace, j: nat) {
    && j < |t.writers| && j < |t.s.written| && t.writers[j] < |t.calls|
    && var call := t.calls[t.writers[j]];
    && call.Produce? && call.v == t.s.written[j] && call.ended != Threw
  }

  /** The j-th read is by a call that hands that value back, once it returns. */
  predicate ReadBy(t: Trace, j: nat) {
    && j < |t.readers| && j < |t.s.read| && t.readers[j] < |t.calls|
    && var call := t.calls[t.readers[j]];
    && call.Consume? && call.ended != Threw && (call.ended == Done ==> call.out == Some(t.s.read[j]))
  }

  ghost predicate Histories(t: Trace) {
    && |t.writers| == |t.s.written| && |t.readers| == |t.s.read| && Distinct(t.writers) && Distinct(t.readers)
    && (forall j :: 0 <= j < |t.writers| ==> WriteBy(t, j))
    && (forall j :: 0 <= j < |t.readers| ==> ReadBy(t, j))
    && (forall c :: 0 <= c < |t.calls| && t.calls[c].ended == Done ==>
         if t.calls[c].Produce? then c in t.writers else c in t.readers)
  }

  predicate CallOf(t: Trace, i: nat, c: nat) {
    InCall(t, i) && i < |t.current| && t.current[i] == c
  }

  /** A call runs no longer than some thread is in it. */
  ghost predicate Active(t: Trace) {
    forall c :: 0 <= c < |t.calls| && t.calls[c].ended == Running ==>
      exists i :: 0 <= i < |t.current| && CallOf(t, i, c)
  }

  ghost predicate RecordInv(t: Trace) {
    Threads(t) && Histories(t) && Active(t)
  }

  /** The record can be kept. */
  predicate Recordable(t: Trace, s': State, i: nat) {
    && i < |t.s.threads| == |s'.threads| == |t.current|
    && (StageOf(t.s.threads[i]) != NoCall ==> t.current[i] < |t.calls|)
    && s'.threads == t.s.threads[i := s'.threads[i]]
    && Moved(t.s, s', StageOf(t.s.threads[i]), StageOf(s'.threads[i]))
  }

  lemma StepRecordable(t: Trace, s': State, i: nat)
    requires RecordInv(t) && Step(t.s, s', i)
    ensures Recordable(t, s', i)
  {
    StepMoved(t.s, s', i);
    hide Step;
    assert AtStage(t, StageOf(t.s.threads[i]), t.current[i]);
  }

  lemma ReadStays(t: Trace, t': Trace, c: nat, v: Value)
    requires t.readers <= t'.readers && t.s.read <= t'.s.read
    requires exists j :: 0 <= j < |t.readers| && ReadAt(t, j, c, v)
    ensures exists j :: 0 <= j < |t'.readers| && ReadAt(t', j, c, v)
  {
    var j :| 0 <= j < |t.readers| && ReadAt(t, j, c, v);
    assert ReadAt(t', j, c, v);
  }

  lemma OtherThread(t: Trace, s': State, i: nat, k: nat)
    requires RecordInv(t) && Recordable(t, s', i) && k < |t.s.threads| && k != i
    ensures AtStage(Recorded(t, s', i), StageOf(t.s.threads[k]), t.current[k])
  {
    hide Histories, StageOf, Returned;
    var t', stage, c := Recorded(t, s', i), StageOf(t.s.threads[k]), t.current[k];
    assert AtStage(t, stage, c);
    assert InCall(t, i) && InCall(t, k) ==> c != t.current[i];
    if stage.Got? { ReadStays(t, t', c, stage.out); }
  }

  lemma OwnThread(t: Trace, s': State, i: nat)
    requires RecordInv(t) && Recordable(t, s', i)
    ensures var t' := Recorded(t, s', i); AtStage(t', StageOf(s'.threads[i]), t'.current[i])
  {
    hide StageOf, Returned;
    var t', was, now, c := Recorded(t, s', i), StageOf(t.s.threads[i]), StageOf(s'.threads[i]), t.current[i];
    assert AtStage(t, was, c);
    if now.Got? {
      if was == now {
        ReadStays(t, t', c, now.out);
      } else {
        assert |t.readers| == |t.s.read|;
        assert ReadAt(t', |t.readers|, c, now.out);
      }
    }
    if was.NoCall? && now.ToWrite? { OldCalls(t); }
    if was.NoCall? && now.ToRead? { OldCalls(t); }
  }

  lemma OldCalls(t: Trace)
    requires Histories(t)
    ensures forall c :: c in t.writers || c in t.readers ==> c < |t.calls|
  {
    forall c | c in t.writers ensures c < |t.calls| {
      var j :| 0 <= j < |t.writers| && t.writers[j] == c;
      assert WriteBy(t, j);
    }
    forall c | c in t.readers ensures c < |t.calls| {
      var j :| 0 <= j < |t.readers| && t.readers[j] == c;
      assert ReadBy(t, j);
    }
  }

  lemma RecordThreads(t: Trace, s': State, i: nat)
    requires RecordInv(t) && Recordable(t, s', i)
    ensures Threads(Recorded(t, s', i))
  {
    hide Histories;
    var t' := Recorded(t, s', i);
    assert InCall(t', i) ==>
      t'.current[i] == |t.calls| || (InCall(t, i) && t'.current[i] == t.current[i]);
    hide Moved;
    forall k | 0 <= k < |t'.current| ensures AtStage(t', StageOf(s'.threads[k]), t'.current[k]) {
      if k == i { OwnThread(t, s', i); } else { OtherThread(t, s', i, k); }
    }
    hide StageOf, Returned;
    assert forall k :: 0 <= k < |t'.current| && k != i ==>
      t'.current[k] == t.current[k] && InCall(t', k) == InCall(t, k);
    forall j, k | 0 <= j < k < |t'.current| && InCall(t', j) && InCall(t', k) ensures t'.current[j] != t'.current[k] {
      assert j != i ==> InCall(t, j) && AtStage(t, StageOf(t.s.threads[j]), t.current[j]);
      assert k != i ==> InCall(t, k) && AtStage(t, StageOf(t.s.threads[k]), t.current[k]);
    }
  }

  /** A call ends as its thread found it. */
  lemma RecordEnded(t: Trace, s': State, i: nat)
    requires RecordInv(t) && Recordable(t, s', i)
    ensures var t' := Recorded(t, s', i);
      forall c :: 0 <= c < |t'.calls| && t'.calls[c].ended == Done ==>
        if t'.calls[c].Produce? then c in t'.writers else c in t'.readers
  {
    hide StageOf;
    var was := StageOf(t.s.threads[i]);
    assert AtStage(t, was, t.current[i]);
    if was.Got? {
      var j :| 0 <= j < |t.readers| && ReadAt(t, j, t.current[i], was.out);
    }
  }

  lemma WriteKept(t: Trace, s': State, i: nat, j: nat)
    requires RecordInv(t) && Recordable(t, s', i) && j < |t.writers|
    ensures WriteBy(Recorded(t, s', i), j)
  {
    hide StageOf;
    assert WriteBy(t, j);
    assert AtStage(t, StageOf(t.s.threads[i]), t.current[i]);
  }

  lemma ReadKept(t: Trace, s': State, i: nat, j: nat)
    requires RecordInv(t) && Recordable(t, s', i) && j < |t.readers|
    ensures ReadBy(Recorded(t, s', i), j)
  {
    hide StageOf;
    var was := StageOf(t.s.threads[i]);
    assert ReadBy(t, j);
    assert AtStage(t, was, t.current[i]);
    if was.Got? && t.readers[j] == t.current[i] {
      var k :| 0 <= k < |t.readers| && ReadAt(t, k, t.current[i], was.out);
      assert k == j;
    }
  }

  lemma RecordHistories(t: Trace, s': State, i: nat)
    requires RecordInv(t) && Recordable(t, s', i)
    ensures Histories(Recorded(t, s', i))
  {
    hide StageOf, WriteBy, ReadBy;
    var t' := Recorded(t, s', i);
    var was, now, c := StageOf(t.s.threads[i]), StageOf(s'.threads[i]), t.current[i];
    assert AtStage(t, was, c);
    RecordEnded(t, s', i);
    forall j | 0 <= j < |t'.writers| ensures WriteBy(t', j) {
      if j < |t.writers| { WriteKept(t, s', i, j); } else { NewWrite(t, s', i); }
    }
    forall j | 0 <= j < |t'.readers| ensures ReadBy(t', j) {
      if j < |t.readers| { ReadKept(t, s', i, j); } else { NewRead(t, s', i); }
    }
  }

  lemma NewWrite(t: Trace, s': State, i: nat)
    requires RecordInv(t) && Recordable(t, s', i) && Recorded(t, s', i).writers != t.writers
    ensures WriteBy(Recorded(t, s', i), |t.writers|)
  {
    hide StageOf;
    assert AtStage(t, StageOf(t.s.threads[i]), t.current[i]);
  }

  lemma NewRead(t: Trace, s': State, i: nat)
    requires RecordInv(t) && Recordable(t, s', i) && Recorded(t, s', i).readers != t.readers
    ensures ReadBy(Recorded(t, s', i), |t.readers|)
  {
    hide StageOf;
    assert AtStage(t, StageOf(t.s.threads[i]), t.current[i]);
  }

  lemma RecordActive(t: Trace, s': State, i: nat)
    requires RecordInv(t) && Recordable(t, s', i)
    ensures Active(Recorded(t, s', i))
  {
    hide StageOf, AtStage, Histories;
    var t', was, now := Recorded(t, s', i), StageOf(t.s.threads[i]), StageOf(s'.threads[i]);
    forall c | 0 <= c < |t'.calls| && t'.calls[c].ended == Running
      ensures exists k :: 0 <= k < |t'.current| && CallOf(t', k, c)
    {
      if c == |t.calls| {
        assert CallOf(t', i, c);
      } else {
        var k :| 0 <= k < |t.current| && CallOf(t, k, c);
        assert CallOf(t', k, c);
      }
    }
  }

  // ----- every run

  /** Which thread moves at each step. */
  ghost predicate Schedule(run: seq<State>, who: seq<nat>) {
    && Run(run) && |who| + 1 == |run|
    && forall n :: 0 < n < |run| ==> Step(run[n-1], run[n], who[n-1])
  }

  lemma {:induction false} ScheduleExists(run: seq<State>) returns (who: seq<nat>)
    requires Run(run)
    ensures Schedule(run, who)
  {
    hide Step, Init;
    who := [];
    while |who| + 1 < |run|
      invariant |who| < |run|
      invariant forall n :: 0 < n <= |who| ==> Step(run[n-1], run[n], who[n-1])
      decreases |run| - |who|
    {
      var n := |who| + 1;
      assert Next(run[n-1], run[n]);
      var i: nat :| Step(run[n-1], run[n], i);
      who := who + [i];
    }
  }

  /** The record of the first `n` steps. */
  ghost function TraceAt(run: seq<State>, who: seq<nat>, n: nat): (t: Trace)
    requires Schedule(run, who) && n < |run|
    ensures t.s == run[n] && RecordInv(t)
  {
    if n == 0 then Trace(run[0], [], seq(|run[0].threads|, _ => 0), [], [])
    else
      var t := TraceAt(run, who, n - 1);
      StepRecordable(t, run[n], who[n-1]);
      RecordThreads(t, run[n], who[n-1]);
      RecordHistories(t, run[n], who[n-1]);
      RecordActive(t, run[n], who[n-1]);
      Recorded(t, run[n], who[n-1])
  }

  /** The consume call that read j-th hands back what the produce call that wrote j-th was given. */
  ghost predicate InOrder(t: Trace) {
    && |t.readers| <= |t.writers| <= |t.readers| + |t.s.storage| && Distinct(t.writers) && Distinct(t.readers)
    && (forall j :: 0 <= j < |t.writers| ==> t.writers[j] < |t.calls| && t.calls[t.writers[j]].Produce?)
    && (forall j :: 0 <= j < |t.readers| ==> t.readers[j] < |t.calls| && t.calls[t.readers[j]].Consume?)
    && (forall j :: 0 <= j < |t.readers| && t.calls[t.readers[j]].ended == Done ==>
         t.calls[t.readers[j]].out == Some(t.calls[t.writers[j]].v))
  }

  lemma RecordInOrder(t: Trace)
    requires RecordInv(t) && |t.s.read| <= |t.s.written| <= |t.s.read| + |t.s.storage|
    requires forall j :: 0 <= j < |t.s.read| ==> t.s.read[j] == t.s.written[j]
    ensures InOrder(t)
  {
    hide Threads;
    forall j | 0 <= j < |t.writers| ensures t.writers[j] < |t.calls| && t.calls[t.writers[j]].Produce? {
      assert WriteBy(t, j);
    }
    forall j | 0 <= j < |t.readers| ensures t.readers[j] < |t.calls| && t.calls[t.readers[j]].Consume? {
      assert ReadBy(t, j);
    }
    forall j | 0 <= j < |t.readers| && t.calls[t.readers[j]].ended == Done
      ensures t.calls[t.readers[j]].out == Some(t.calls[t.writers[j]].v)
    {
      assert ReadBy(t, j) && WriteBy(t, j);
    }
  }

  lemma CallsFifo(run: seq<State>, who: seq<nat>, n: nat)
    requires Schedule(run, who) && n < |run|
    ensures InOrder(TraceAt(run, who, n))
  {
    Fifo(run, n);
    RecordInOrder(TraceAt(run, who, n));
  }

  /** A call that returned has written or read, one that threw has done neither, and a call runs just as long as a
      thread is in it. */
  lemma ReturnedOrThrew(run: seq<State>, who: seq<nat>, n: nat, c: nat)
    requires Schedule(run, who) && n < |run| && c < |TraceAt(run, who, n).calls|
    ensures var t := TraceAt(run, who, n);
      && (t.calls[c].ended == Done ==> if t.calls[c].Produce? then c in t.writers else c in t.readers)
      && (t.calls[c].ended == Threw ==> c !in t.writers && c !in t.readers)
      && (t.calls[c].ended == Running <==> exists i :: 0 <= i < |t.current| && CallOf(t, i, c))
  {
    var t := TraceAt(run, who, n);
    assert forall i :: 0 <= i < |t.current| ==> AtStage(t, StageOf(t.s.threads[i]), t.current[i]);
    hide Schedule, Threads, TraceAt;
    if c in t.writers {
      var j :| 0 <= j < |t.writers| && t.writers[j] == c;
      assert WriteBy(t, j);
    }
    if c in t.readers {
      var j :| 0 <= j < |t.readers| && t.readers[j] == c;
      assert ReadBy(t, j);
    }
  }

  lemma RecordGrows(t: Trace, s': State, i: nat)
    requires Recordable(t, s', i)
    ensures t.writers <= Recorded(t, s', i).writers && t.readers <= Recorded(t, s', i).readers
  {
    hide StageOf;
  }

  lemma {:induction false} TraceGrows(run: seq<State>, who: seq<nat>, m: nat, n: nat)
    requires Schedule(run, who) && m <= n < |run|
    ensures TraceAt(run, who, m).writers <= TraceAt(run, who, n).writers
    ensures TraceAt(run, who, m).readers <= TraceAt(run, who, n).readers
  {
    hide Step, Init, RecordInv, Recordable, Recorded;
    if m < n {
      TraceGrows(run, who, m, n - 1);
      var t := TraceAt(run, who, n - 1);
      StepRecordable(t, run[n], who[n-1]);
      RecordGrows(t, run[n], who[n-1]);
    }
  }

  lemma InPrefix(early: seq<nat>, all: seq<nat>, k: nat)
    requires early <= all && k < |all|
    ensures k < |early| ==> all[k] in early
  {
    if k < |early| { assert all[k] == early[k]; }
  }

  lemma FirstAmong(early: seq<nat>, all: seq<nat>, c: nat, k: nat)
    requires early <= all && c in early && k < |all| && all[k] !in early
    ensures exists j :: 0 <= j < k && all[j] == c
  {
    var j :| 0 <= j < |early| && early[j] == c;
    assert all[j] == c;
    InPrefix(early, all, k);
  }

  /** A call that had returned when another began wrote, or read, before it. */
  lemma EarlierFirst(run: seq<State>, who: seq<nat>, m: nat, n: nat, c: nat, k: nat)
    requires Schedule(run, who) && m <= n < |run|
    requires c < |TraceAt(run, who, m).calls| && TraceAt(run, who, m).calls[c].ended == Done
    ensures var t, t' := TraceAt(run, who, m), TraceAt(run, who, n);
      t.calls[c].Produce? && k < |t'.writers| && t'.writers[k] >= |t.calls| ==>
        exists j :: 0 <= j < k && t'.writers[j] == c
    ensures var t, t' := TraceAt(run, who, m), TraceAt(run, who, n);
      t.calls[c].Consume? && k < |t'.readers| && t'.readers[k] >= |t.calls| ==>
        exists j :: 0 <= j < k && t'.readers[j] == c
  {
    hide Step, Init, Schedule, Threads, TraceAt;
    var t, t' := TraceAt(run, who, m), TraceAt(run, who, n);
    TraceGrows(run, who, m, n);
    ReturnedOrThrew(run, who, m, c);
    OldCalls(t);
    hide *;
    if t.calls[c].Produce? {
      if k < |t'.writers| && t'.writers[k] >= |t.calls| { FirstAmong(t.writers, t'.writers, c, k); }
    } else {
      if k < |t'.readers| && t'.readers[k] >= |t.calls| { FirstAmong(t.readers, t'.readers, c, k); }
    }
  }
}
