/**
 * The event queue of the GNSS node: any number of threads emit, one timer drains. The steps are the
 * single operations on the queue, so that the threads interleave between them.
 */
module GnssEventQueue {

  const CAPACITY: nat := 1024
  const DRAIN_LIMIT: nat := 200

  /** The `number`-th event of a thread. */
  datatype Event = Event(producer: nat, number: nat)

  /** Where a thread is in emitting its last event: not at all, before dropping the oldest, before trying again. */
  datatype Phase = Idle | DropNext | RetryNext

  datatype State = State(
    queue: seq<Event>,
    delivered: seq<Event>,
    lost: seq<Event>,
    sent: seq<nat>,
    phase: seq<Phase>,
    budget: nat,
    fullSeen: nat)

  datatype Step =
    | Put(p: nat)        // the first put_nowait of an emit
    | DropOldest(p: nat) // the get_nowait after it failed
    | PutAgain(p: nat)   // the second put_nowait
    | StartDrain
    | Take               // a get_nowait of the drain loop

  function Init(producers: nat): State {
    State([], [], [], seq(producers, _ => 0), seq(producers, _ => Idle), 0, 0)
  }

  predicate Enabled(s: State, step: Step) {
    match step
    case Put(p) => p < |s.phase| && p < |s.sent| && s.phase[p] == Idle
    case DropOldest(p) => p < |s.phase| && s.phase[p] == DropNext
    case PutAgain(p) => p < |s.phase| && p < |s.sent| && s.sent[p] > 0 && s.phase[p] == RetryNext
    case StartDrain => true
    case Take => s.budget > 0
  }

  function Apply(s: State, step: Step): State
    requires Enabled(s, step)
  {
    match step
    case Put(p) =>
      var e := Event(p, s.sent[p]);
      var t := s.(sent := s.sent[p := s.sent[p] + 1]);
      if |s.queue| < CAPACITY then t.(queue := s.queue + [e])
      else t.(phase := s.phase[p := DropNext], fullSeen := s.fullSeen + 1)
    case DropOldest(p) =>
      var t := s.(phase := s.phase[p := RetryNext]);
      if s.queue == [] then t else t.(queue := s.queue[1..], lost := s.lost + [s.queue[0]])
    case PutAgain(p) =>
      var e := Event(p, s.sent[p] - 1);
      var t := s.(phase := s.phase[p := Idle]);
      if |s.queue| < CAPACITY then t.(queue := s.queue + [e]) else t.(lost := s.lost + [e])
    case StartDrain => s.(budget := DRAIN_LIMIT)
    case Take =>
      if s.queue == [] then s.(budget := 0)
      else s.(queue := s.queue[1..], delivered := s.delivered + [s.queue[0]], budget := s.budget - 1)
  }

  /* ----- what every reachable state satisfies ----- */

  /** How many events of a thread are past its hands: all it has sent but the one it is emitting. */
  function Settled(s: State, p: nat): nat
    requires p < |s.sent| && p < |s.phase|
  {
    if s.phase[p] != Idle && s.sent[p] > 0 then s.sent[p] - 1 else s.sent[p]
  }

  predicate Shape(s: State) {
    && |s.sent| == |s.phase| && |s.queue| <= CAPACITY && s.budget <= DRAIN_LIMIT
    && forall p | 0 <= p < |s.phase| :: s.phase[p] != Idle ==> s.sent[p] > 0
  }

  /** Every event of the list is past the hands of its thread. */
  ghost predicate Known(s: State, events: seq<Event>)
    requires |s.sent| == |s.phase|
  {
    forall i :: 0 <= i < |events| ==> events[i].producer < |s.sent| && events[i].number < Settled(s, events[i].producer)
  }

  /** The events of each thread are in the order it sent them, each at most once. */
  ghost predicate InOrder(events: seq<Event>) {
    forall i, j :: 0 <= i < j < |events| && events[i].producer == events[j].producer ==>
        events[i].number < events[j].number
  }

  /** All three places an event can end up in, counted together. */
  function Everywhere(s: State): multiset<Event> {
    multiset(s.delivered) + multiset(s.queue) + multiset(s.lost)
  }

  /** Every event past its thread's hands is in exactly one place, exactly once, and there is nothing else. */
  ghost predicate Conserved(s: State)
    requires |s.sent| == |s.phase|
  {
    forall e :: Everywhere(s)[e] == if e.producer < |s.sent| && e.number < Settled(s, e.producer) then 1 else 0
  }

  /** How many events may still be lost to the times the queue was found full. */
  function Owed(phase: seq<Phase>): nat {
    if phase == [] then 0
    else (if phase[0] == DropNext then 2 else if phase[0] == RetryNext then 1 else 0) + Owed(phase[1..])
  }

  /** Each time a thread finds the queue full, at most two events are lost to it. */
  predicate LossBounded(s: State) {
    |s.lost| + Owed(s.phase) <= 2 * s.fullSeen
  }

  ghost predicate Inv(s: State) {
    Shape(s) && InOrder(s.delivered + s.queue) && Conserved(s) && LossBounded(s)
  }

  /* ----- small steps of the proof ----- */

  lemma {:induction false} OwedUpdate(phase: seq<Phase>, p: nat, next: Phase)
    requires p < |phase|
    ensures Owed(phase[p := next]) + (if phase[p] == DropNext then 2 else if phase[p] == RetryNext then 1 else 0)
         == Owed(phase) + (if next == DropNext then 2 else if next == RetryNext then 1 else 0)
    decreases |phase|
  {
    if p > 0 {
      OwedUpdate(phase[1..], p - 1, next);
      assert phase[p := next][1..] == phase[1..][p - 1 := next];
    } else {
      assert phase[p := next][1..] == phase[1..];
    }
  }

  lemma FirstOut(q: seq<Event>)
    requires q != []
    ensures multiset(q) == multiset(q[1..]) + multiset{q[0]}
  {
    assert q == [q[0]] + q[1..];
  }

  lemma OneMore(q: seq<Event>, e: Event)
    ensures multiset(q + [e]) == multiset(q) + multiset{e}
  {
  }

  /** What is counted somewhere is known. */
  lemma ConservedKnown(s: State)
    requires |s.sent| == |s.phase| && Conserved(s)
    ensures Known(s, s.delivered + s.queue)
  {
    var trace := s.delivered + s.queue;
    forall i | 0 <= i < |trace|
      ensures trace[i].producer < |s.sent| && trace[i].number < Settled(s, trace[i].producer)
    {
      assert trace[i] in multiset(trace);
      assert multiset(trace) == multiset(s.delivered) + multiset(s.queue);
      assert Everywhere(s)[trace[i]] > 0;
    }
  }

  lemma InOrderMore(events: seq<Event>, e: Event)
    requires InOrder(events)
    requires forall i :: 0 <= i < |events| && events[i].producer == e.producer ==> events[i].number < e.number
    ensures InOrder(events + [e])
  {
  }

  lemma InOrderDrop(a: seq<Event>, b: seq<Event>)
    requires b != [] && InOrder(a + b)
    ensures InOrder(a + b[1..])
  {
    var all, fewer := a + b, a + b[1..];
    forall i, j | 0 <= i < j < |fewer| && fewer[i].producer == fewer[j].producer
      ensures fewer[i].number < fewer[j].number
    {
      var i', j' := if i < |a| then i else i + 1, if j < |a| then j else j + 1;
      assert all[i'] == fewer[i] && all[j'] == fewer[j];
    }
  }

  /** Appending the event that leaves its thread's hands keeps the order. */
  lemma AppendKeepsOrder(s: State, e: Event)
    requires |s.sent| == |s.phase| && Conserved(s) && InOrder(s.delivered + s.queue)
    requires e.producer < |s.sent| && e.number == Settled(s, e.producer)
    ensures InOrder(s.delivered + (s.queue + [e]))
  {
    ConservedKnown(s);
    InOrderMore(s.delivered + s.queue, e);
    assert s.delivered + (s.queue + [e]) == (s.delivered + s.queue) + [e];
  }

  /** One event more in one of the places, and one more past the hands of its thread. */
  lemma CountOne(s: State, t: State, e: Event)
    requires |s.sent| == |s.phase| == |t.sent| == |t.phase| && Conserved(s)
    requires e.producer < |s.sent| && e.number == Settled(s, e.producer)
    requires forall p :: 0 <= p < |s.sent| ==> Settled(t, p) == Settled(s, p) + if p == e.producer then 1 else 0
    requires Everywhere(t) == Everywhere(s) + multiset{e}
    ensures Conserved(t)
  {
    forall x ensures Everywhere(t)[x] == if x.producer < |t.sent| && x.number < Settled(t, x.producer) then 1 else 0 {
      assert Everywhere(t)[x] == Everywhere(s)[x] + multiset{e}[x];
    }
  }

  lemma CountSame(s: State, t: State)
    requires |s.sent| == |s.phase| == |t.sent| == |t.phase| && Conserved(s)
    requires forall p :: 0 <= p < |s.sent| ==> Settled(t, p) == Settled(s, p)
    requires Everywhere(t) == Everywhere(s)
    ensures Conserved(t)
  {
  }

  /* ----- the steps ----- */

  lemma PutKeeps(s: State, p: nat)
    requires Inv(s) && Enabled(s, Put(p))
    ensures Inv(Apply(s, Put(p)))
  {
    hide InOrder, Conserved, Owed, Everywhere;
    var e, t := Event(p, s.sent[p]), Apply(s, Put(p));
    OwedUpdate(s.phase, p, DropNext);
    if |s.queue| < CAPACITY {
      AppendKeepsOrder(s, e);
      EverywhereQueued(s, t, e);
      CountOne(s, t, e);
    } else {
      SamePlaces(s, t);
      CountSame(s, t);
    }
  }

  lemma EverywhereQueued(s: State, t: State, e: Event)
    requires t.queue == s.queue + [e] && t.delivered == s.delivered && t.lost == s.lost
    ensures Everywhere(t) == Everywhere(s) + multiset{e}
  {
    OneMore(s.queue, e);
  }

  lemma SamePlaces(s: State, t: State)
    requires t.queue == s.queue && t.delivered == s.delivered && t.lost == s.lost
    ensures Everywhere(t) == Everywhere(s)
  {
  }

  lemma DropOldestKeeps(s: State, p: nat)
    requires Inv(s) && Enabled(s, DropOldest(p))
    ensures Inv(Apply(s, DropOldest(p)))
  {
    hide InOrder, Conserved, Owed, Everywhere;
    var t := Apply(s, DropOldest(p));
    OwedUpdate(s.phase, p, RetryNext);
    if s.queue == [] {
      SamePlaces(s, t);
    } else {
      InOrderDrop(s.delivered, s.queue);
      EverywhereDropped(s, t);
    }
    CountSame(s, t);
  }

  lemma EverywhereDropped(s: State, t: State)
    requires s.queue != [] && t.queue == s.queue[1..] && t.delivered == s.delivered && t.lost == s.lost + [s.queue[0]]
    ensures Everywhere(t) == Everywhere(s)
  {
    FirstOut(s.queue);
    OneMore(s.lost, s.queue[0]);
  }

  lemma PutAgainKeeps(s: State, p: nat)
    requires Inv(s) && Enabled(s, PutAgain(p))
    ensures Inv(Apply(s, PutAgain(p)))
  {
    hide InOrder, Conserved, Owed, Everywhere;
    var e, t := Event(p, s.sent[p] - 1), Apply(s, PutAgain(p));
    OwedUpdate(s.phase, p, Idle);
    if |s.queue| < CAPACITY {
      AppendKeepsOrder(s, e);
      EverywhereQueued(s, t, e);
    } else {
      EverywhereLost(s, t, e);
    }
    CountOne(s, t, e);
  }

  lemma EverywhereLost(s: State, t: State, e: Event)
    requires t.queue == s.queue && t.delivered == s.delivered && t.lost == s.lost + [e]
    ensures Everywhere(t) == Everywhere(s) + multiset{e}
  {
    OneMore(s.lost, e);
  }

  lemma TakeKeeps(s: State)
    requires Inv(s) && Enabled(s, Take)
    ensures Inv(Apply(s, Take))
  {
    hide InOrder, Conserved, Owed, Everywhere;
    var t := Apply(s, Take);
    if s.queue == [] {
      SamePlaces(s, t);
    } else {
      assert t.delivered + t.queue == s.delivered + s.queue;
      EverywhereTaken(s, t);
    }
    CountSame(s, t);
  }

  lemma EverywhereTaken(s: State, t: State)
    requires s.queue != [] && t.queue == s.queue[1..] && t.lost == s.lost && t.delivered == s.delivered + [s.queue[0]]
    ensures Everywhere(t) == Everywhere(s)
  {
    FirstOut(s.queue);
    OneMore(s.delivered, s.queue[0]);
  }

  /** Every operation of every thread keeps the invariant. */
  lemma StepKeeps(s: State, step: Step)
    requires Inv(s) && Enabled(s, step)
    ensures Inv(Apply(s, step))
  {
    hide InOrder, Conserved, Owed, Everywhere;
    match step
    case Put(p) => PutKeeps(s, p);
    case DropOldest(p) => DropOldestKeeps(s, p);
    case PutAgain(p) => PutAgainKeeps(s, p);
    case StartDrain =>
      SamePlaces(s, Apply(s, step));
      CountSame(s, Apply(s, step));
    case Take => TakeKeeps(s);
  }

  lemma {:induction false} OwedNone(n: nat)
    ensures Owed(seq(n, _ => Idle)) == 0
  {
    if n > 0 {
      OwedNone(n - 1);
      assert seq(n, _ => Idle)[1..] == seq(n - 1, _ => Idle);
    }
  }

  /* ----- whole runs ----- */

  /** The state after the steps that were possible; an impossible step does nothing. */
  function Run(s: State, steps: seq<Step>): State
    decreases |steps|
  {
    if steps == [] then s
    else Run(if Enabled(s, steps[0]) then Apply(s, steps[0]) else s, steps[1..])
  }

  lemma {:induction false} RunKeeps(s: State, steps: seq<Step>)
    requires Inv(s)
    ensures Inv(Run(s, steps))
    decreases |steps|
  {
    hide Inv, Apply, Enabled;
    if steps != [] {
      if Enabled(s, steps[0]) {
        StepKeeps(s, steps[0]);
      }
      RunKeeps(if Enabled(s, steps[0]) then Apply(s, steps[0]) else s, steps[1..]);
    }
  }

  /**
   * Whatever the threads and the timer do in whatever order: the queue stays within its bound, the
   * events of each thread are delivered in order and at most once, every event is accounted for,
   * and none is lost unless the queue was found full.
   */
  lemma AllRuns(producers: nat, steps: seq<Step>)
    ensures var s := Run(Init(producers), steps);
            && |s.queue| <= 1024 && InOrder(s.delivered)
            && |s.sent| == |s.phase| && Conserved(s)
            && |s.lost| <= 2 * s.fullSeen
  {
    hide Run, Conserved, Owed;
    var s := Run(Init(producers), steps);
    InitInv(producers);
    RunKeeps(Init(producers), steps);
    assert s.delivered == (s.delivered + s.queue)[..|s.delivered|];
  }

  lemma InitInv(producers: nat)
    ensures Inv(Init(producers))
  {
    OwedNone(producers);
  }

  /* ----- what the steps of a run do ----- */

  /** The step takes the oldest event out of the queue for the timer. */
  predicate Delivers(s: State, step: Step) { step == Take && s.budget > 0 && s.queue != [] }

  /** The step loses an event: the oldest, to make room, or one that finds the queue full a second time. */
  predicate Loses(s: State, step: Step) {
    match step
    case DropOldest(p) => p < |s.phase| && s.phase[p] == DropNext && s.queue != []
    case PutAgain(p) =>
      p < |s.phase| && p < |s.sent| && s.sent[p] > 0 && s.phase[p] == RetryNext && |s.queue| >= 1024
    case _ => false
  }

  /** The step adds an event to the queue, which has room. */
  predicate Adds(s: State, step: Step) {
    |s.queue| < 1024 &&
    match step
    case Put(p) => p < |s.phase| && p < |s.sent| && s.phase[p] == Idle
    case PutAgain(p) => p < |s.phase| && p < |s.sent| && s.sent[p] > 0 && s.phase[p] == RetryNext
    case _ => false
  }

  /** How many steps of the run do this. */
  function Times(does: (State, Step) -> bool, s: State, steps: seq<Step>): nat
    decreases |steps|
  {
    if steps == [] then 0
    else (if does(s, steps[0]) then 1 else 0) + Times(does, Run(s, steps[..1]), steps[1..])
  }

  lemma RunOne(s: State, step: Step)
    ensures Run(s, [step]) == if Enabled(s, step) then Apply(s, step) else s
  {
    hide Apply, Enabled;
    var rest := [step][1..];
    assert rest == [];
  }

  lemma StepTallied(s: State, step: Step)
    ensures var t := Run(s, [step]);
            && t.delivered == (if Delivers(s, step) then s.delivered + [s.queue[0]] else s.delivered)
            && |t.lost| == |s.lost| + (if Loses(s, step) then 1 else 0)
            && |t.queue| + |t.delivered| + |t.lost| ==
               |s.queue| + |s.delivered| + |s.lost|
                 + (if Adds(s, step) then 1 else 0) + (if step.PutAgain? && Loses(s, step) then 1 else 0)
  {
    RunOne(s, step);
  }

  /**
   * In every run each take from a queue that is not empty delivers its oldest event, and events are
   * lost only to a full queue: the oldest when a thread makes room, and the thread's own when there is
   * none again.
   */
  lemma {:induction false} RunTallied(s: State, steps: seq<Step>)
    ensures var t := Run(s, steps);
            && s.delivered <= t.delivered && |t.delivered| == |s.delivered| + Times(Delivers, s, steps)
            && |t.lost| == |s.lost| + Times(Loses, s, steps)
    decreases |steps|
  {
    hide Apply, Enabled, Delivers, Loses;
    if steps != [] {
      var step := steps[0];
      assert steps[..1] == [step];
      RunOne(s, step);
      StepTallied(s, step);
      RunTallied(Run(s, [step]), steps[1..]);
    }
  }

  /** One round of the timer, when no thread comes between: 200 events, or all there are, in their order. */
  lemma RoundDelivers(s: State)
    ensures var n := if |s.queue| < 200 then |s.queue| else 200;
            var t := Run(s, [StartDrain] + seq(n, _ => Take));
            t.delivered == s.delivered + s.queue[..n] && t.queue == s.queue[n..] && t.lost == s.lost
  {
    var n := if |s.queue| < 200 then |s.queue| else 200;
    var round := [StartDrain] + seq(n, _ => Take);
    assert round[1..] == seq(n, _ => Take);
    TakesDeliver(s.(budget := 200), n);
  }

  lemma {:induction false} TakesDeliver(s: State, n: nat)
    requires n <= |s.queue| && n <= s.budget
    ensures var t := Run(s, seq(n, _ => Take));
            t == s.(delivered := s.delivered + s.queue[..n], queue := s.queue[n..], budget := s.budget - n)
    decreases n
  {
    var takes := seq(n, _ => Take);
    if n > 0 {
      var t := s.(queue := s.queue[1..], delivered := s.delivered + [s.queue[0]], budget := s.budget - 1);
      assert takes[1..] == seq(n - 1, _ => Take);
      TakesDeliver(t, n - 1);
      assert [s.queue[0]] + s.queue[1..][..n - 1] == s.queue[..n];
      assert t.delivered + t.queue[..n - 1] == s.delivered + s.queue[..n];
      assert Run(s, takes) == Run(t, takes[1..]);
    } else {
      assert s.delivered + s.queue[..0] == s.delivered;
    }
  }
}
