/**
 * The correction queue of the GNSS node: the network thread puts the chunks it receives, the serial
 * thread writes them to the port, and empties the queue when the port is lost.
 */
module RtcmQueue {

  const CAPACITY: nat := 256

  datatype Cause = PortLost | QueueFull

  /** A chunk that never reached the port, by the number it was received with. */
  datatype Loss = Loss(chunk: nat, cause: Cause)

  datatype Port = Online | Clearing | Offline

  datatype State = State(
    received: nat,
    queue: seq<nat>,
    written: seq<nat>,
    losses: seq<Loss>,
    port: Port,
    disconnects: nat,
    aborts: nat)

  datatype Step =
    | PutChunk     // the network thread's put, with or without waiting for room
    | PutTimesOut  // the put that is still refused when its time is up ends the session
    | Write        // get_nowait and write
    | WriteFails   // the same, and the port fails
    | PortFails    // the port fails elsewhere
    | ClearOne     // one get_nowait of the loop that empties the queue
    | Connect
    | ConnectFails // the port cannot be opened, and the queue is emptied as well

  function Init(): State { State(0, [], [], [], Offline, 0, 0) }

  /** The port has been open; the network thread waits for that. */
  predicate Started(s: State) { s.disconnects > 0 || s.port == Online }

  predicate Enabled(s: State, step: Step) {
    match step
    case PutChunk => Started(s) && |s.queue| < CAPACITY
    case PutTimesOut => Started(s) && |s.queue| >= CAPACITY
    case Write => s.port == Online
    case WriteFails => s.port == Online && s.queue != []
    case PortFails => s.port == Online
    case ClearOne => s.port == Clearing
    case Connect => s.port == Offline
    case ConnectFails => s.port == Offline
  }

  function Apply(s: State, step: Step): State
    requires Enabled(s, step)
  {
    match step
    case PutChunk => s.(queue := s.queue + [s.received], received := s.received + 1)
    case PutTimesOut =>
      s.(received := s.received + 1, losses := s.losses + [Loss(s.received, QueueFull)], aborts := s.aborts + 1)
    case Write =>
      if s.queue == [] then s else s.(queue := s.queue[1..], written := s.written + [s.queue[0]])
    case WriteFails =>
      s.(queue := s.queue[1..], losses := s.losses + [Loss(s.queue[0], PortLost)], port := Clearing,
         disconnects := s.disconnects + 1)
    case PortFails => s.(port := Clearing, disconnects := s.disconnects + 1)
    case ClearOne =>
      if s.queue == [] then s.(port := Offline)
      else s.(queue := s.queue[1..], losses := s.losses + [Loss(s.queue[0], PortLost)])
    case Connect => s.(port := Online)
    case ConnectFails => s.(port := Clearing)
  }

  /* ----- what every reachable state satisfies ----- */

  /** Later chunks were received later. */
  ghost predicate Increasing(chunks: seq<nat>) {
    forall i, j :: 0 <= i < j < |chunks| ==> chunks[i] < chunks[j]
  }

  ghost predicate IsLost(losses: seq<Loss>, chunk: nat) {
    exists k :: 0 <= k < |losses| && losses[k].chunk == chunk
  }

  /** Every chunk received is lost, or is on its way to the port or through it, and not both. */
  ghost predicate Accounted(s: State) {
    && (forall c :: c in s.written || c in s.queue ==> c < s.received && !IsLost(s.losses, c))
    && (forall k :: 0 <= k < |s.losses| ==> s.losses[k].chunk < s.received)
    && (forall c: nat :: c < s.received ==> c in s.written || c in s.queue || IsLost(s.losses, c))
  }

  function CountOf(losses: seq<Loss>, cause: Cause): nat {
    if losses == [] then 0
    else CountOf(losses[..|losses| - 1], cause) + if losses[|losses| - 1].cause == cause then 1 else 0
  }

  /**
   * A full queue costs one chunk for each session it ends; other chunks are lost only with the port,
   * and before it was first open there are none.
   */
  predicate Explained(s: State) {
    && CountOf(s.losses, QueueFull) == s.aborts && (s.disconnects == 0 ==> CountOf(s.losses, PortLost) == 0)
    && (!Started(s) ==> s.queue == [])
  }

  ghost predicate Inv(s: State) {
    |s.queue| <= CAPACITY && Increasing(s.written + s.queue) && Accounted(s) && Explained(s)
  }

  lemma LostMore(losses: seq<Loss>, loss: Loss, c: nat)
    ensures IsLost(losses + [loss], c) <==> IsLost(losses, c) || c == loss.chunk
    ensures forall cause ::
              CountOf(losses + [loss], cause) == CountOf(losses, cause) + if loss.cause == cause then 1 else 0
  {
    var more := losses + [loss];
    assert more[..|losses|] == losses;
    if IsLost(losses, c) {
      var k :| 0 <= k < |losses| && losses[k].chunk == c;
      assert more[k].chunk == c;
    }
    if c == loss.chunk {
      assert more[|losses|].chunk == c;
    }
  }

  lemma IncreasingDrop(a: seq<nat>, b: seq<nat>)
    requires b != [] && Increasing(a + b)
    ensures Increasing(a + b[1..]) && b[0] !in a && b[0] !in b[1..]
  {
    var all, fewer := a + b, a + b[1..];
    forall i, j | 0 <= i < j < |fewer| ensures fewer[i] < fewer[j] {
      assert all[if i < |a| then i else i + 1] == fewer[i] && all[if j < |a| then j else j + 1] == fewer[j];
    }
    assert all[|a|] == b[0];
    assert forall i | 0 <= i < |a| :: all[i] == a[i];
    assert forall i | 0 < i < |b| :: all[|a| + i] == b[i];
  }

  lemma SplitFirst(q: seq<nat>, c: nat)
    requires q != []
    ensures c in q <==> c == q[0] || c in q[1..]
  {
    assert q == [q[0]] + q[1..];
  }

  /** Losing the oldest chunk of the queue. */
  lemma LoseOldest(s: State, t: State)
    requires Inv(s) && s.queue != [] && t.queue == s.queue[1..] && t.written == s.written && t.received == s.received
    requires t.losses == s.losses + [Loss(s.queue[0], PortLost)] && t.aborts == s.aborts && t.disconnects > 0
    ensures Inv(t)
  {
    hide IsLost, CountOf, Increasing;
    IncreasingDrop(s.written, s.queue);
    LostMore(s.losses, Loss(s.queue[0], PortLost), 0);
    forall c: nat
      ensures IsLost(t.losses, c) <==> IsLost(s.losses, c) || c == s.queue[0]
      ensures c in s.queue <==> c == s.queue[0] || c in t.queue
    {
      LostMore(s.losses, Loss(s.queue[0], PortLost), c);
      SplitFirst(s.queue, c);
    }
    assert CountOf(t.losses, QueueFull) == CountOf(s.losses, QueueFull);
  }

  lemma PutKeeps(s: State)
    requires Inv(s) && Enabled(s, PutChunk)
    ensures Inv(Apply(s, PutChunk))
  {
    hide CountOf;
    var t := Apply(s, PutChunk);
    var a := s.written + s.queue;
    assert t.written + t.queue == a + [s.received];
    forall i | 0 <= i < |a| ensures a[i] < s.received {
      assert a[i] in s.written || a[i] in s.queue;
    }
  }

  lemma TimesOutKeeps(s: State)
    requires Inv(s) && Enabled(s, PutTimesOut)
    ensures Inv(Apply(s, PutTimesOut))
  {
    hide IsLost, CountOf;
    var t := Apply(s, PutTimesOut);
    LostMore(s.losses, Loss(s.received, QueueFull), 0);
    forall c: nat ensures IsLost(t.losses, c) <==> IsLost(s.losses, c) || c == s.received {
      LostMore(s.losses, Loss(s.received, QueueFull), c);
    }
  }

  lemma WriteKeeps(s: State, t: State)
    requires Inv(s) && s.queue != [] && t == s.(queue := s.queue[1..], written := s.written + [s.queue[0]])
    ensures Inv(t)
  {
    hide IsLost, CountOf, Increasing;
    assert t.written + t.queue == s.written + s.queue;
    forall c: nat
      ensures c in s.queue <==> c == s.queue[0] || c in t.queue
      ensures c in t.written <==> c in s.written || c == s.queue[0]
    {
      SplitFirst(s.queue, c);
    }
  }

  lemma StepKeeps(s: State, step: Step)
    requires Inv(s) && Enabled(s, step)
    ensures Inv(Apply(s, step))
  {
    hide IsLost, CountOf, Increasing;
    match step
    case PutChunk => PutKeeps(s);
    case PutTimesOut => TimesOutKeeps(s);
    case Write =>
      if s.queue != [] {
        WriteKeeps(s, Apply(s, step));
      }
    case WriteFails => LoseOldest(s, Apply(s, step));
    case PortFails =>
    case ClearOne =>
      if s.queue != [] {
        LoseOldest(s, Apply(s, step));
      }
    case Connect =>
    case ConnectFails =>
  }

  function Run(s: State, steps: seq<Step>): State
    decreases |steps|
  {
    if steps == [] then s
    else Run(if Enabled(s, steps[0]) then Apply(s, steps[0]) else s, steps[1..])
  }

  lemma {:induction false} RunKeeps(s: State, steps: seq<Step>)
    requires Inv(s)
    ensures Inv(Run(s, steps))
    decreases |steps|
  {
    hide Inv, Apply, Enabled;
    if steps != [] {
      if Enabled(s, steps[0]) {
        StepKeeps(s, steps[0]);
      }
      RunKeeps(if Enabled(s, steps[0]) then Apply(s, steps[0]) else s, steps[1..]);
    }
  }

  /**
   * Whatever the two threads do in whatever order: the chunks reach the port in the order they were
   * received, each at most once, and every chunk up to the last one written was written or lost.
   */
  lemma AllRuns(steps: seq<Step>)
    ensures var s := Run(Init(), steps);
            && |s.queue| <= 256 && Increasing(s.written)
            && (forall c: nat :: c < s.received ==> c in s.written || c in s.queue || IsLost(s.losses, c))
            && (forall c :: c in s.written ==> c < s.received && !IsLost(s.losses, c))
            && CountOf(s.losses, QueueFull) == s.aborts && (s.disconnects == 0 ==> CountOf(s.losses, PortLost) == 0)
  {
    hide Run, IsLost, CountOf;
    var s := Run(Init(), steps);
    InitInv();
    RunKeeps(Init(), steps);
    assert s.written == (s.written + s.queue)[..|s.written|];
  }

  lemma InitInv()
    ensures Inv(Init())
  {
  }

  lemma {:induction false} CountsAll(losses: seq<Loss>)
    ensures CountOf(losses, QueueFull) + CountOf(losses, PortLost) == |losses|
    decreases |losses|
  {
    if losses != [] {
      CountsAll(losses[..|losses| - 1]);
    }
  }

  /**
   * While the port has never failed and no session has been ended, what was written is all that was
   * received up to it.
   */
  lemma NoGaps(steps: seq<Step>)
    requires var s := Run(Init(), steps); s.disconnects == 0 && s.aborts == 0
    ensures var s := Run(Init(), steps);
            && s.losses == [] && |s.written| + |s.queue| == s.received
            && forall i :: 0 <= i < |s.written| ==> s.written[i] == i
  {
    hide Run;
    var s := Run(Init(), steps);
    InitInv();
    RunKeeps(Init(), steps);
    CountsAll(s.losses);
    var all := s.written + s.queue;
    forall c: nat ensures c in all <==> c < s.received {
    }
    NoneMissing(all, s.received);
    assert forall i | 0 <= i < |s.written| :: s.written[i] == all[i];
  }

  lemma AnyOf(chunks: seq<nat>) returns (c: nat)
    requires chunks != []
    ensures c in chunks
  {
    c := chunks[0];
  }

  lemma {:induction false} NoneMissing(chunks: seq<nat>, n: nat)
    requires Increasing(chunks)
    requires forall c: nat :: c in chunks <==> c < n
    ensures |chunks| == n && forall i :: 0 <= i < n ==> chunks[i] == i
    decreases n
  {
    if n == 0 {
      if chunks != [] {
        var c := AnyOf(chunks);
      }
    } else {
      var m := |chunks| - 1;
      assert n - 1 in chunks;
      var i :| 0 <= i < |chunks| && chunks[i] == n - 1;
      assert chunks[m] in chunks;
      var shorter := chunks[..m];
      forall c: nat ensures c in shorter <==> c < n - 1 {
        if c < n - 1 {
          assert c in chunks;
          var k :| 0 <= k < |chunks| && chunks[k] == c;
          assert shorter[k] == c;
        }
        if c in shorter {
          var k :| 0 <= k < m && shorter[k] == c;
          assert chunks[k] == c;
        }
      }
      NoneMissing(shorter, n - 1);
    }
  }

  /* ----- what the steps of a run do ----- */

  /** The step writes the oldest chunk to the port. */
  predicate Writes(s: State, step: Step) { step == Write && s.port == Online && s.queue != [] }

  /** The step receives a chunk, for which there is room or not. */
  predicate Puts(s: State, step: Step) {
    (s.disconnects > 0 || s.port == Online) && (if |s.queue| < 256 then step == PutChunk else step == PutTimesOut)
  }

  /** The step loses a chunk. */
  predicate Loses(s: State, step: Step) {
    || (step == WriteFails && s.port == Online && s.queue != [])
    || (step == ClearOne && s.port == Clearing && s.queue != [])
    || (step == PutTimesOut && Puts(s, step))
  }

  /** The step finds the port failing. */
  predicate Breaks(s: State, step: Step) {
    s.port == Online && (step == PortFails || (step == WriteFails && s.queue != []))
  }

  /** The port opens and closes: it fails, the queue is emptied, and it can be opened again. */
  function PortAfter(s: State, step: Step): Port {
    if s.port == Offline then if step == Connect then Online else if step == ConnectFails then Clearing else Offline
    else if s.port == Online then if Breaks(s, step) then Clearing else Online
    else if step == ClearOne && s.queue == [] then Offline else Clearing
  }

  /** How many steps of the run do this. */
  function Times(does: (State, Step) -> bool, s: State, steps: seq<Step>): nat
    decreases |steps|
  {
    if steps == [] then 0
    else (if does(s, steps[0]) then 1 else 0) + Times(does, Run(s, steps[..1]), steps[1..])
  }

  lemma RunOne(s: State, step: Step)
    ensures Run(s, [step]) == if Enabled(s, step) then Apply(s, step) else s
  {
    hide Apply, Enabled;
    var rest := [step][1..];
    assert rest == [];
  }

  /** What one step adds. */
  lemma StepTallied(s: State, step: Step)
    ensures var t := Run(s, [step]);
            && t.written == (if Writes(s, step) then s.written + [s.queue[0]] else s.written)
            && t.received == s.received + (if Puts(s, step) then 1 else 0)
            && |t.losses| == |s.losses| + (if Loses(s, step) then 1 else 0)
            && t.disconnects == s.disconnects + (if Breaks(s, step) then 1 else 0) && t.port == PortAfter(s, step)
            && |t.written| + |t.queue| + |t.losses| - t.received == |s.written| + |s.queue| + |s.losses| - s.received
  {
    RunOne(s, step);
  }

  /**
   * In every run each write with a chunk in the queue reaches the port, each put receives a chunk, and
   * what is neither written nor lost is in the queue.
   */
  lemma {:induction false} RunTallied(s: State, steps: seq<Step>)
    ensures var t := Run(s, steps);
            && s.written <= t.written && |t.written| == |s.written| + Times(Writes, s, steps)
            && t.received == s.received + Times(Puts, s, steps)
            && |t.losses| == |s.losses| + Times(Loses, s, steps)
            && t.disconnects == s.disconnects + Times(Breaks, s, steps)
            && |t.written| + |t.queue| + |t.losses| - t.received == |s.written| + |s.queue| + |s.losses| - s.received
    decreases |steps|
  {
    hide Apply, Enabled, Writes, Puts, Loses, Breaks;
    if steps != [] {
      var step := steps[0];
      assert steps[..1] == [step];
      RunOne(s, step);
      StepTallied(s, step);
      RunTallied(Run(s, [step]), steps[1..]);
    }
  }

  /** From the start: the chunks written, waiting and lost are all that were received. */
  lemma AllTallied(steps: seq<Step>)
    ensures var s := Run(Init(), steps);
            && |s.written| == Times(Writes, Init(), steps) && s.received == Times(Puts, Init(), steps)
            && |s.losses| == Times(Loses, Init(), steps) && |s.written| + |s.queue| + |s.losses| == s.received
  {
    RunTallied(Init(), steps);
  }

  /** While the port is open, as many writes as there are chunks bring all of them to the port, in their order. */
  lemma {:induction false} WritesDrain(s: State, n: nat)
    requires s.port == Online && n <= |s.queue|
    ensures Run(s, seq(n, _ => Write)) == s.(written := s.written + s.queue[..n], queue := s.queue[n..])
    ensures n == |s.queue| ==> Run(s, seq(n, _ => Write)) == s.(written := s.written + s.queue, queue := [])
    decreases n
  {
    var writes := seq(n, _ => Write);
    if n > 0 {
      var t := s.(queue := s.queue[1..], written := s.written + [s.queue[0]]);
      assert writes[1..] == seq(n - 1, _ => Write);
      WritesDrain(t, n - 1);
      assert [s.queue[0]] + s.queue[1..][..n - 1] == s.queue[..n];
      assert t.written + t.queue[..n - 1] == s.written + s.queue[..n];
      assert Run(s, writes) == Run(t, writes[1..]);
    } else {
      assert s.written + s.queue[..0] == s.written;
    }
    assert n == |s.queue| ==> s.queue[..n] == s.queue && s.queue[n..] == [];
  }

  /** When the port is lost, the queue is emptied, its chunks are lost in their order, and the port is closed. */
  lemma {:induction false} ClearingEmpties(s: State)
    requires s.port == Clearing
    ensures var t := Run(s, seq(|s.queue| + 1, _ => ClearOne));
            && t.queue == [] && t.port == Offline && t.written == s.written && t.received == s.received
            && |t.losses| == |s.losses| + |s.queue| && s.losses <= t.losses
            && forall k :: 0 <= k < |s.queue| ==> t.losses[|s.losses| + k] == Loss(s.queue[k], PortLost)
    decreases |s.queue|
  {
    var clears := seq(|s.queue| + 1, _ => ClearOne);
    if s.queue != [] {
      var t := s.(queue := s.queue[1..], losses := s.losses + [Loss(s.queue[0], PortLost)]);
      assert clears[1..] == seq(|t.queue| + 1, _ => ClearOne);
      ClearingEmpties(t);
      assert Run(s, clears) == Run(t, clears[1..]);
    } else {
      RunOne(s, ClearOne);
      assert clears == [ClearOne];
    }
  }
}
