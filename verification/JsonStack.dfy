/**
 * What the stack of the iterative parser holds in every reachable state, in terms of the tokens
 * that have been read: which brackets are open, what kind they are and how many commas each has seen.
 */
module JsonStack {
  import opened Bytes
  import opened JsonText
  import opened JsonDescent
  import opened JsonAutomaton

  predicate Opening(t: Token) { t == LeftBracket || t == LeftCurly }

  predicate Closing(t: Token) { t == RightBracket || t == RightCurly }

  /** How many brackets are open after the tokens `h`. */
  function Depth(h: seq<Token>): int {
    if h == [] then 0
    else
      var t := h[|h| - 1];
      Depth(h[..|h| - 1]) + (if Opening(t) then 1 else if Closing(t) then -1 else 0)
  }

  /** Commas between the items of the open bracket that `out` others separate from the end of `h`. */
  function Commas(h: seq<Token>, out: nat): nat {
    if h == [] then 0
    else
      var t, before := h[|h| - 1], h[..|h| - 1];
      if Closing(t) then Commas(before, out + 1)
      else if Opening(t) then if out == 0 then 0 else Commas(before, out - 1)
      else if t == Comma && out == 0 then Commas(before, out) + 1
      else Commas(before, out)
  }

  /** The token of that bracket itself, or none. */
  function Opener(h: seq<Token>, out: nat): (r: Option<Token>)
    ensures r.Some? ==> Opening(r.value)
  {
    if h == [] then None
    else
      var t, before := h[|h| - 1], h[..|h| - 1];
      if Closing(t) then Opener(before, out + 1)
      else if Opening(t) then if out == 0 then Some(t) else Opener(before, out - 1)
      else Opener(before, out)
  }

  /** The tokens read so far and the machine they led to. */
  datatype Run = Run(tokens: seq<Token>, machine: Machine)

  /** The run of the parser's loop over `k` transitions; none if it stops before. */
  function RunFor(s: seq<byte>, f: Flags, k: nat): (r: Option<Run>)
    ensures r.Some? ==> Invariant(s, r.value.machine)
  {
    if k == 0 then Some(Run([], Machine(SkipSpace(s, 0), StartState, [], [])))
    else
      match RunFor(s, f, k - 1)
      case None => None
      case Some(Run(h, m)) =>
        if Peek(s, m.pos) == 0 || (f.stopWhenDone && m.state == FinishState) then None
        else
          match Transit(s, f, m)
          case Reject(_, _, _) => None
          case Next(m') => Some(Run(h + [Tokenize(Peek(s, m.pos))], m'.(pos := SkipSpace(s, m'.pos))))
  }

  predicate InArray(q: State) { q in {ArrayInitial, Element, ElementDelimiter} }

  /** The state that resumes inside a bracket of the given kind. */
  function Resume(opener: Option<Token>): State {
    match opener
    case None => StartState
    case Some(t) => if t == LeftBracket then Element else MemberValue
  }

  /** The stack is exactly what the tokens say: one (saved state, count) pair per open bracket. */
  ghost predicate Mirrors(h: seq<Token>, m: Machine) {
    && Pairs(h, m.stack)
    && (Inside(m.state) ==> Opener(h, 0) == Some(if InArray(m.state) then LeftBracket else LeftCurly))
  }

  ghost predicate Pairs(h: seq<Token>, stack: seq<nat>) {
    && |stack| == 2 * Depth(h)
    && (forall j: nat | 2 * j < |stack| :: Pair(h, stack, j))
    && Opener(h, |stack| / 2) == None
  }

  /** The pair of the bracket that `j` others separate from the top. */
  predicate Pair(h: seq<Token>, stack: seq<nat>, j: nat)
    requires |stack| % 2 == 0 && 2 * j < |stack|
  {
    && stack[|stack| - 1 - 2 * j] == Commas(h, j)
    && stack[|stack| - 2 - 2 * j] == Code(Resume(Opener(h, j + 1)))
    && Opener(h, j).Some?
  }

  /** How one more token changes each reading of the history. */
  lemma OneMore(h: seq<Token>, t: Token, out: nat)
    ensures Depth(h + [t]) == Depth(h) + (if Opening(t) then 1 else if Closing(t) then -1 else 0)
    ensures Closing(t) ==> Commas(h + [t], out) == Commas(h, out + 1) && Opener(h + [t], out) == Opener(h, out + 1)
    ensures Opening(t) ==> Commas(h + [t], 0) == 0 && Opener(h + [t], 0) == Some(t)
    ensures Opening(t) && out > 0 ==>
              Commas(h + [t], out) == Commas(h, out - 1) && Opener(h + [t], out) == Opener(h, out - 1)
    ensures !Opening(t) && !Closing(t) ==>
              && Opener(h + [t], out) == Opener(h, out)
              && Commas(h + [t], out) == Commas(h, out) + if t == Comma && out == 0 then 1 else 0
  {
    assert (h + [t])[..|h|] == h;
  }

  lemma PairsPush(h: seq<Token>, stack: seq<nat>, t: Token)
    requires Pairs(h, stack) && Opening(t)
    ensures Pairs(h + [t], stack + [Code(Resume(Opener(h, 0))), 0])
  {
    hide Depth, Commas, Opener, Code, Resume;
    var stack' := stack + [Code(Resume(Opener(h, 0))), 0];
    OneMore(h, t, |stack'| / 2);
    forall j: nat | 2 * j < |stack'| ensures Pair(h + [t], stack', j) {
      OneMore(h, t, j);
      OneMore(h, t, j + 1);
      if j > 0 {
        assert Pair(h, stack, j - 1);
      }
    }
  }

  lemma PairsPop(h: seq<Token>, stack: seq<nat>, t: Token)
    requires Pairs(h, stack) && Closing(t) && |stack| >= 2
    ensures Pairs(h + [t], stack[..|stack| - 2])
  {
    hide Depth, Commas, Opener, Code, Resume;
    var stack' := stack[..|stack| - 2];
    OneMore(h, t, |stack'| / 2);
    forall j: nat | 2 * j < |stack'| ensures Pair(h + [t], stack', j) {
      OneMore(h, t, j);
      OneMore(h, t, j + 1);
      assert Pair(h, stack, j + 1);
    }
  }

  lemma PairsKeep(h: seq<Token>, stack: seq<nat>, t: Token)
    requires Pairs(h, stack) && !Opening(t) && !Closing(t)
    requires t == Comma ==> |stack| >= 2
    ensures var n := |stack|;
            Pairs(h + [t], if t == Comma then stack[n - 1 := stack[n - 1] + 1] else stack)
  {
    hide Depth, Commas, Opener, Code, Resume;
    var stack' := if t == Comma then stack[|stack| - 1 := stack[|stack| - 1] + 1] else stack;
    OneMore(h, t, |stack'| / 2);
    forall j: nat | 2 * j < |stack'| ensures Pair(h + [t], stack', j) {
      OneMore(h, t, j);
      OneMore(h, t, j + 1);
      assert Pair(h, stack, j);
    }
  }

  lemma MirrorsOpen(h: seq<Token>, m: Machine, t: Token, q: State)
    requires Balanced(m) && Mirrors(h, m)
    requires m.state in {StartState, ArrayInitial, ElementDelimiter, KeyValueDelimiter}
    requires (t == LeftBracket && q == ArrayInitial) || (t == LeftCurly && q == ObjectInitial)
    ensures Mirrors(h + [t], Open(m, q))
  {
    hide Depth, Commas, Opener, Pairs;
    if m.state == StartState {
      NothingOpen(h, m);
    }
    assert Resume(Opener(h, 0)) == Saved(m.state);
    PairsPush(h, m.stack, t);
    OneMore(h, t, 0);
  }

  lemma NothingRead()
    ensures Pairs([], [])
  {
  }

  lemma NothingOpen(h: seq<Token>, m: Machine)
    requires Mirrors(h, m) && m.stack == []
    ensures Opener(h, 0) == None
  {
  }

  /** The pair below the top says which container is resumed. */
  lemma MirrorsClose(h: seq<Token>, m: Machine, t: Token, item: State, end: nat -> Event)
    requires Balanced(m) && Mirrors(h, m) && |m.stack| >= 2 && Closing(t)
    ensures Mirrors(h + [t], Close(m, item, end))
  {
    hide Depth, Commas, Opener;
    PairsPop(h, m.stack, t);
    OneMore(h, t, 0);
    assert Pair(h, m.stack, 0);
    if |m.stack| >= 4 {
      assert Pair(h, m.stack, 1);
    }
  }

  lemma MirrorsComma(h: seq<Token>, m: Machine, q: State)
    requires Balanced(m) && Mirrors(h, m) && |m.stack| >= 2
    requires (m.state == Element && q == ElementDelimiter) || (m.state == MemberValue && q == MemberDelimiter)
    ensures Mirrors(h + [Comma], Count(m, q))
  {
    hide Depth, Commas, Opener, Pairs;
    PairsKeep(h, m.stack, Comma);
    OneMore(h, Comma, 0);
  }

  lemma MirrorsOther(h: seq<Token>, m: Machine, m': Machine, t: Token)
    requires Mirrors(h, m) && m'.stack == m.stack
    requires !Opening(t) && !Closing(t) && t != Comma
    requires Inside(m'.state) ==> Inside(m.state) && (InArray(m'.state) <==> InArray(m.state))
    ensures Mirrors(h + [t], m')
  {
    hide Depth, Commas, Opener, Pairs;
    PairsKeep(h, m.stack, t);
    OneMore(h, t, 0);
  }

  /** Every transition keeps the stack in step with the tokens. */
  lemma TransitMirrors(s: seq<byte>, f: Flags, h: seq<Token>, m: Machine)
    requires Invariant(s, m) && Mirrors(h, m) && Peek(s, m.pos) != 0 && Transit(s, f, m).Next?
    ensures Mirrors(h + [Tokenize(Peek(s, m.pos))], Transit(s, f, m).machine)
  {
    hide Mirrors, Open, Close, Count, ScanString, ScanScalar;
    var t := Tokenize(Peek(s, m.pos));
    var m' := Transit(s, f, m).machine;
    var dst := Predict(m.state, t);
    if dst == ObjectInitial || dst == ArrayInitial {
      MirrorsOpen(h, m, t, dst);
    } else if dst == ObjectFinish {
      MirrorsClose(h, m, t, MemberValue, (n: nat) => EndObject(n));
    } else if dst == ArrayFinish {
      MirrorsClose(h, m, t, Element, (n: nat) => EndArray(n));
    } else if dst == MemberDelimiter || dst == ElementDelimiter {
      MirrorsComma(h, m, dst);
    } else {
      MirrorsOther(h, m, m', t);
    }
  }

  /**
   * In every state the loop reaches, the stack is the one the tokens determine. In particular it
   * has a pair for every bracket still open, so no pop can underflow.
   */
  lemma {:induction false} ReachableStack(s: seq<byte>, f: Flags, k: nat)
    ensures RunFor(s, f, k).Some? ==> var r := RunFor(s, f, k).value; |r.tokens| == k && Mirrors(r.tokens, r.machine)
  {
    hide Transit, Pairs, Opener;
    if k > 0 {
      ReachableStack(s, f, k - 1);
      if RunFor(s, f, k).Some? {
        var r := RunFor(s, f, k - 1).value;
        TransitMirrors(s, f, r.tokens, r.machine);
      }
    } else {
      NothingRead();
    }
  }

  /** Every transition consumes input, so a run has at most as many transitions as bytes. */
  lemma {:induction false} RunsAreShort(s: seq<byte>, f: Flags, k: nat)
    ensures RunFor(s, f, k).Some? ==> k <= RunFor(s, f, k).value.machine.pos <= |s|
  {
    hide Transit;
    if k > 0 {
      RunsAreShort(s, f, k - 1);
    }
  }

  /** The run is the parser's own: from any state on it, the loop goes on to the parser's outcome. */
  lemma {:induction false} RunIsTheParse(s: seq<byte>, f: Flags, k: nat)
    ensures RunFor(s, f, k).Some? && !(f.stopWhenDone && RunFor(s, f, k).value.machine.state == FinishState) ==>
              IterativeParse(s, f) == Iterate(s, f, RunFor(s, f, k).value.machine)
  {
    hide Transit;
    if k > 0 {
      RunIsTheParse(s, f, k - 1);
    }
  }
}
