/**
 The thread pool's shutdown: the destructor sends one poison per worker and joins them all.

 The queue between is a bounded FIFO whose operations are atomic, which `PCQueue.StepIsQueueStep` justifies.
 */
module ThreadPool {
  import opened Arithmetic

  datatype Item = Request(id: nat) | Poison

  datatype Worker = Waiting | Handling(id: nat) | Done

  /** `submitted` and `handled` list requests as they enter the queue and as their handling finishes. */
  datatype State = State(
    capacity: nat, queue: seq<Item>, workers: seq<Worker>, closing: bool, poisoned: nat, joined: nat,
    submitted: seq<nat>, handled: seq<nat>)

  ghost predicate Init(s: State) {
    && s.queue == [] && !s.closing && s.poisoned == s.joined == 0 && s.submitted == s.handled == []
    && forall w :: 0 <= w < |s.workers| ==> s.workers[w] == Waiting
  }

  datatype Action =
    | Submit(id: nat) | Close | SendPoison | Consume(w: nat) | Finish(w: nat) | Join

  predicate Enabled(s: State, a: Action) {
    match a
    case Submit(_) => !s.closing && |s.queue| < s.capacity
    case Close => !s.closing
    case SendPoison => s.closing && s.poisoned < |s.workers| && |s.queue| < s.capacity
    case Consume(w) => w < |s.workers| && s.workers[w] == Waiting && s.queue != []
    case Finish(w) => w < |s.workers| && s.workers[w].Handling?
    case Join => s.closing && s.poisoned == |s.workers| && s.joined < |s.workers| && s.workers[s.joined] == Done
  }

  function Do(s: State, a: Action): (after: State)
    requires Enabled(s, a)
  {
    match a
    case Submit(id) => s.(queue := s.queue + [Request(id)], submitted := s.submitted + [id])
    case Close => s.(closing := true)
    case SendPoison => s.(queue := s.queue + [Poison], poisoned := s.poisoned + 1)
    case Consume(w) =>
      s.(queue := s.queue[1..],
         workers := s.workers[w := if s.queue[0] == Poison then Done else Handling(s.queue[0].id)])
    case Finish(w) => s.(workers := s.workers[w := Waiting], handled := s.handled + [s.workers[w].id])
    case Join => s.(joined := s.joined + 1)
  }

  /** The destructor has returned. */
  predicate Destroyed(s: State) {
    s.closing && s.poisoned == |s.workers| && s.joined == |s.workers|
  }

  // ----- invariant

  function Dones(workers: seq<Worker>): (count: nat) {
    if workers == [] then 0 else Dones(workers[1..]) + if workers[0] == Done then 1 else 0
  }

  /** How many workers are handling the request. */
  function InHand(workers: seq<Worker>, id: nat): (count: nat) {
    if workers == [] then 0 else One(workers[0] == Handling(id)) + InHand(workers[1..], id)
  }

  /** How often the request occurs. */
  function Times(ids: seq<nat>, id: nat): (count: nat) {
    multiset(ids)[id]
  }

  lemma TimesPrefix(a: seq<nat>, b: seq<nat>, id: nat)
    ensures Times(a, id) <= Times(a + b, id)
  {}

  lemma TimesMore(ids: seq<nat>, x: nat, id: nat)
    ensures Times(ids + [x], id) == Times(ids, id) + One(x == id)
  {}

  function Requests(ids: seq<nat>): (r: seq<Item>)
    ensures |r| == |ids| && forall i :: 0 <= i < |r| ==> r[i] == Request(ids[i])
  {
    seq(|ids|, i requires 0 <= i < |ids| => Request(ids[i]))
  }

  function Poisons(n: nat): (r: seq<Item>)
    ensures |r| == n && forall i :: 0 <= i < n ==> r[i] == Poison
  {
    seq(n, _ => Poison)
  }

  /** The first `taken` requests have been taken; behind the others in the queue are the poisons not yet taken. */
  ghost predicate InvAt(s: State, taken: nat) {
    && taken <= |s.submitted| && Dones(s.workers) <= s.poisoned <= |s.workers|
    && s.queue == Requests(s.submitted[taken..]) + Poisons(s.poisoned - Dones(s.workers))
    && (s.poisoned > 0 ==> s.closing) && (Dones(s.workers) > 0 ==> taken == |s.submitted|)
    && (forall id :: Times(s.submitted[..taken], id) == Times(s.handled, id) + InHand(s.workers, id))
    && |s.queue| <= s.capacity
    && s.joined <= |s.workers| && forall w :: 0 <= w < s.joined ==> s.workers[w] == Done
  }

  ghost predicate Inv(s: State) {
    exists taken: nat :: InvAt(s, taken)
  }

  lemma {:induction false} DonesMove(workers: seq<Worker>, w: nat, now: Worker)
    requires w < |workers|
    ensures Dones(workers[w := now]) + (if workers[w] == Done then 1 else 0) ==
            Dones(workers) + if now == Done then 1 else 0
  {
    if w == 0 {
      assert workers[0 := now][1..] == workers[1..];
    } else {
      DonesMove(workers[1..], w - 1, now);
      assert workers[w := now][1..] == workers[1..][w - 1 := now];
    }
  }

  lemma {:induction false} InHandMove(workers: seq<Worker>, w: nat, now: Worker, id: nat)
    requires w < |workers|
    ensures InHand(workers[w := now], id) + One(workers[w] == Handling(id)) ==
            InHand(workers, id) + One(now == Handling(id))
  {
    if w == 0 {
      assert workers[0 := now][1..] == workers[1..];
    } else {
      InHandMove(workers[1..], w - 1, now, id);
      assert workers[w := now][1..] == workers[1..][w - 1 := now];
    }
  }

  lemma {:induction false} NoneDone(workers: seq<Worker>)
    requires forall w :: 0 <= w < |workers| ==> workers[w] == Waiting
    ensures Dones(workers) == 0 && forall id :: InHand(workers, id) == 0
  {
    if workers != [] { NoneDone(workers[1..]); }
  }

  lemma {:induction false} DonesBound(workers: seq<Worker>)
    ensures Dones(workers) <= |workers|
    ensures Dones(workers) == |workers| <==> forall w :: 0 <= w < |workers| ==> workers[w] == Done
    ensures Dones(workers) == |workers| ==> forall id :: InHand(workers, id) == 0
  {
    if workers != [] {
      DonesBound(workers[1..]);
      assert workers == [workers[0]] + workers[1..];
    }
  }

  lemma InitInv(s: State)
    requires Init(s)
    ensures Inv(s)
  {
    NoneDone(s.workers);
    assert InvAt(s, 0);
  }

  lemma StepInv(s: State, a: Action)
    requires Inv(s) && Enabled(s, a)
    ensures Inv(Do(s, a))
  {
    var taken: nat :| InvAt(s, taken);
    var s' := Do(s, a);
    hide Dones, InHand, Times, Requests, Poisons;
    match a {
      case Submit(id) => SubmitInv(s, id, taken);
      case Close => OtherInv(s, a, taken);
      case SendPoison => PoisonInv(s, taken);
      case Consume(w) => ConsumeInv(s, w, taken);
      case Finish(w) => FinishInv(s, w, taken);
      case Join => OtherInv(s, a, taken);
    }
  }

  lemma OtherInv(s: State, a: Action, taken: nat)
    requires InvAt(s, taken) && Enabled(s, a) && (a.Close? || a.Join?)
    ensures InvAt(Do(s, a), taken)
  {
    hide Dones, InHand, Times;
  }

  lemma SubmitInv(s: State, id: nat, taken: nat)
    requires InvAt(s, taken) && Enabled(s, Submit(id))
    ensures InvAt(Do(s, Submit(id)), taken)
  {
    hide Dones, InHand, Times;
    var s' := Do(s, Submit(id));
    assert s'.submitted[taken..] == s.submitted[taken..] + [id];
    assert s'.submitted[..taken] == s.submitted[..taken];
    assert s'.queue == Requests(s'.submitted[taken..]) + Poisons(0);
  }

  lemma PoisonInv(s: State, taken: nat)
    requires InvAt(s, taken) && Enabled(s, SendPoison)
    ensures InvAt(Do(s, SendPoison), taken)
  {
    hide Dones, InHand, Times;
    var n := s.poisoned - Dones(s.workers);
    assert Poisons(n + 1) == Poisons(n) + [Poison];
  }

  lemma ConsumeInv(s: State, w: nat, taken: nat)
    requires InvAt(s, taken) && Enabled(s, Consume(w))
    ensures Inv(Do(s, Consume(w)))
  {
    hide Dones, InHand, Times;
    var s' := Do(s, Consume(w));
    DonesMove(s.workers, w, s'.workers[w]);
    var taken' := if taken < |s.submitted| then taken + 1 else taken;
    if taken < |s.submitted| {
      assert s.queue[0] == Request(s.submitted[taken]);
    } else {
      assert s.queue[0] == Poison;
    }
    assert s'.queue == Requests(s'.submitted[taken'..]) + Poisons(s'.poisoned - Dones(s'.workers));
    forall id ensures Times(s'.submitted[..taken'], id) == Times(s'.handled, id) + InHand(s'.workers, id) {
      InHandMove(s.workers, w, s'.workers[w], id);
      if taken < |s.submitted| {
        assert s.submitted[..taken+1] == s.submitted[..taken] + [s.submitted[taken]];
        TimesMore(s.submitted[..taken], s.submitted[taken], id);
      }
    }
    assert InvAt(s', taken');
  }

  lemma FinishInv(s: State, w: nat, taken: nat)
    requires InvAt(s, taken) && Enabled(s, Finish(w))
    ensures InvAt(Do(s, Finish(w)), taken)
  {
    hide Dones, InHand, Times;
    var s' := Do(s, Finish(w));
    DonesMove(s.workers, w, Waiting);
    forall id ensures Times(s.submitted[..taken], id) == Times(s'.handled, id) + InHand(s'.workers, id) {
      InHandMove(s.workers, w, Waiting, id);
      TimesMore(s.handled, s.workers[w].id, id);
    }
  }

  // ----- every run

  ghost predicate Run(s: State, actions: seq<Action>, s': State)
    decreases |actions|
  {
    if actions == [] then s' == s
    else Enabled(s, actions[0]) && Run(Do(s, actions[0]), actions[1..], s')
  }

  lemma {:induction false} RunInv(s: State, actions: seq<Action>, s': State)
    requires Inv(s) && Run(s, actions, s')
    ensures Inv(s') && |s'.workers| == |s.workers| && s'.capacity == s.capacity
    decreases |actions|
  {
    hide Inv;
    if actions != [] {
      StepInv(s, actions[0]);
      RunInv(Do(s, actions[0]), actions[1..], s');
    }
  }

  /** A pool of no workers handles nothing. */
  lemma {:induction false} NothingHandled(s: State, actions: seq<Action>, s': State)
    requires |s.workers| == 0 && Run(s, actions, s')
    ensures s'.handled == s.handled
    decreases |actions|
  {
    if actions != [] { NothingHandled(Do(s, actions[0]), actions[1..], s'); }
  }

  /** When the destructor returns, every worker took one poison, and every request submitted has been handled, once,
      exactly if there were workers or no requests. */
  lemma ShutdownHandlesAll(s: State, actions: seq<Action>, s': State)
    requires Init(s) && Run(s, actions, s') && Destroyed(s')
    ensures forall w :: 0 <= w < |s'.workers| ==> s'.workers[w] == Done
    ensures |s.workers| > 0 ==> s'.queue == []
    ensures |s.workers| > 0 || s'.submitted == [] <==>
            forall id :: Times(s'.handled, id) == Times(s'.submitted, id)
  {
    hide Times, Run;
    InitInv(s);
    RunInv(s, actions, s');
    var taken: nat :| InvAt(s', taken);
    AllTaken(s', taken);
    if |s.workers| == 0 {
      NothingHandled(s, actions, s');
      Unhandled(s'.submitted);
    }
  }

  /** With all poisons taken, so are all requests. */
  lemma AllTaken(s: State, taken: nat)
    requires InvAt(s, taken) && Destroyed(s)
    ensures forall w :: 0 <= w < |s.workers| ==> s.workers[w] == Done
    ensures |s.workers| > 0 ==> s.queue == [] && forall id :: Times(s.handled, id) == Times(s.submitted, id)
  {
    hide Times;
    DonesBound(s.workers);
    assert |s.workers| > 0 ==> s.submitted[..taken] == s.submitted;
  }

  lemma Unhandled(submitted: seq<nat>)
    ensures submitted == [] <==> forall id :: Times([], id) == Times(submitted, id)
  {
    if submitted != [] { assert Times(submitted, submitted[0]) > 0; }
  }

  /** Before that nothing is handled that was not submitted, nor more often; and no more wait than the queue holds. */
  lemma HandledOnce(s: State, actions: seq<Action>, s': State)
    requires Init(s) && Run(s, actions, s')
    ensures forall id :: Times(s'.handled, id) <= Times(s'.submitted, id)
    ensures |s'.queue| <= s.capacity
  {
    hide Times, Run;
    InitInv(s);
    RunInv(s, actions, s');
    var taken: nat :| InvAt(s', taken);
    assert |s'.queue| <= s'.capacity;
    hide InvAt, InHand;
    forall id ensures Times(s'.handled, id) <= Times(s'.submitted, id) { TakenCounts(s', taken, id); }
  }

  lemma TakenCounts(s: State, taken: nat, id: nat)
    requires InvAt(s, taken)
    ensures Times(s.handled, id) <= Times(s.submitted, id)
  {
    assert s.submitted == s.submitted[..taken] + s.submitted[taken..];
    TimesPrefix(s.submitted[..taken], s.submitted[taken..], id);
    hide Times;
  }

  // ----- shutdown terminates

  function Handlers(workers: seq<Worker>): (count: nat) {
    if workers == [] then 0 else Handlers(workers[1..]) + if workers[0].Handling? then 1 else 0
  }

  lemma {:induction false} HandlersMove(workers: seq<Worker>, w: nat, now: Worker)
    requires w < |workers|
    ensures Handlers(workers[w := now]) + (if workers[w].Handling? then 1 else 0) ==
            Handlers(workers) + if now.Handling? then 1 else 0
  {
    if w == 0 {
      assert workers[0 := now][1..] == workers[1..];
    } else {
      HandlersMove(workers[1..], w - 1, now);
      assert workers[w := now][1..] == workers[1..][w - 1 := now];
    }
  }

  /** Taking a request and handling it are two steps, taking a poison is one. */
  function Work(queue: seq<Item>): (steps: nat) {
    if queue == [] then 0 else (if queue[0] == Poison then 1 else 2) + Work(queue[1..])
  }

  lemma {:induction false} WorkMore(queue: seq<Item>, item: Item)
    ensures Work(queue + [item]) == Work(queue) + if item == Poison then 1 else 2
  {
    if queue == [] {
      assert queue + [item] == [item];
    } else {
      WorkMore(queue[1..], item);
      assert (queue + [item])[1..] == queue[1..] + [item];
    }
  }

  /** The steps left: what is queued and in hand, a poison to send and to take for each worker that has none yet, the
      threads to join, and before all that the destructor's start. */
  function Remaining(s: State): (steps: int) {
    Work(s.queue) + Handlers(s.workers) + 2 * (|s.workers| - s.poisoned) + |s.workers| - s.joined +
    if s.closing then 0 else 1
  }

  /** Whichever step but a submission is taken, one less is left. */
  lemma StepsToEnd(s: State, a: Action)
    requires Enabled(s, a) && !a.Submit?
    ensures Remaining(Do(s, a)) == Remaining(s) - 1
  {
    match a
    case SendPoison => WorkMore(s.queue, Poison);
    case Consume(w) => HandlersMove(s.workers, w, Do(s, a).workers[w]);
    case Finish(w) => HandlersMove(s.workers, w, Waiting);
    case _ =>
  }

  lemma {:induction false} NoneHandling(workers: seq<Worker>)
    requires forall w :: 0 <= w < |workers| ==> workers[w] == Done
    ensures Handlers(workers) == 0
  {
    if workers != [] { NoneHandling(workers[1..]); }
  }

  /** However the steps interleave, the destructor returns after exactly as many as are left when it begins. */
  lemma {:induction false} ShutdownSteps(s: State, actions: seq<Action>, s': State)
    requires Inv(s) && s.closing && |s.workers| > 0 && Run(s, actions, s') && Destroyed(s')
    ensures |actions| == Remaining(s)
    decreases |actions|
  {
    if actions == [] {
      var taken: nat :| InvAt(s, taken);
      AllTaken(s, taken);
      NoneHandling(s.workers);
    } else {
      StepInv(s, actions[0]);
      StepsToEnd(s, actions[0]);
      hide Inv, Remaining;
      ShutdownSteps(Do(s, actions[0]), actions[1..], s');
    }
  }

  /** And until it has returned, there is a step to take. */
  lemma ShutdownNotStuck(s: State) returns (a: Action)
    requires Inv(s) && s.closing && !Destroyed(s) && s.capacity > 0
    ensures Enabled(s, a)
  {
    var taken: nat :| InvAt(s, taken);
    DonesBound(s.workers);
    if w: nat :| w < |s.workers| && s.workers[w].Handling? {
      a := Finish(w);
    } else if Dones(s.workers) == |s.workers| {
      a := Join;
    } else {
      var w: nat :| w < |s.workers| && s.workers[w] != Done;
      a := if s.queue != [] then Consume(w) else SendPoison;
    }
  }
}
