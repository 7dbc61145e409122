/** The two parsers agree: on what they accept, on the events they send and on the errors they report. */
module JsonAgreement {
  import opened Bytes
  import opened JsonText
  import opened JsonDescent
  import opened JsonAutomaton

  /** The states in which the next token starts a value. */
  predicate WantsValue(q: State) {
    q in {StartState, ArrayInitial, ElementDelimiter, KeyValueDelimiter}
  }

  /** The state reached when that value is complete. */
  function AfterValue(q: State): State {
    if q == StartState then FinishState else Saved(q)
  }

  /** A byte that cannot start a value but has a token of its own. */
  predicate Stray(c: byte) {
    c == RIGHT_BRACKET || c == RIGHT_CURLY || c == COMMA || c == COLON
  }

  /**
   * The automaton in `m` does with the construct at its cursor what the recursive parser did with
   * result `r`; `q` and `stack` are its state and its stack after the construct.
   */
  ghost predicate Simulates(s: seq<byte>, f: Flags, m: Machine, r: Parsed, q: State, stack: seq<nat>)
    requires Invariant(s, m)
  {
    if r.Failed? then Iterate(s, f, m) == Rejected(m.events + r.events, r.code, r.offset)
    else
      var m' := Machine(r.next, q, stack, m.events + r.events);
      Invariant(s, m') && Iterate(s, f, m) == Continue(s, f, m')
  }

  /** Simulation composes with events that the automaton has already sent. */
  lemma {:induction false} SimulatesPrepend(s: seq<byte>, f: Flags, m: Machine, m1: Machine, events: seq<Event>,
                                            r: Parsed, q: State, stack: seq<nat>)
    requires Invariant(s, m) && Invariant(s, m1) && m1.events == m.events + events
    requires Iterate(s, f, m) == Iterate(s, f, m1)
    requires Simulates(s, f, m1, r, q, stack)
    ensures Simulates(s, f, m, Prepend(events, r), q, stack)
  {
    hide Iterate, Continue, Invariant;
    assert m.events + events + r.events == m.events + (events + r.events);
  }

  /** The state that closing the innermost bracket leads to. */
  function Popped(stack: seq<nat>): State {
    if |stack| < 2 then FinishState
    else
      var saved := FromCode(stack[|stack| - 2]);
      if saved == StartState then FinishState else saved
  }

  /** The count of the innermost container, and the stack without its pair. */
  function Top(m: Machine): nat {
    if |m.stack| < 2 then 0 else m.stack[|m.stack| - 1]
  }

  function Below(m: Machine): seq<nat> {
    if |m.stack| < 2 then [] else m.stack[..|m.stack| - 2]
  }

  /** Simulation of the rest of the innermost container, up to and past its closing bracket. */
  ghost predicate Closing(s: seq<byte>, f: Flags, m: Machine, r: Parsed)
    requires Invariant(s, m)
  {
    Simulates(s, f, m, r, Popped(m.stack), Below(m))
  }

  /** `m1` is a later machine in the same container that has sent `events` more. */
  predicate SameContainer(m: Machine, m1: Machine, events: seq<Event>) {
    m1.events == m.events + events && Below(m1) == Below(m) && Popped(m1.stack) == Popped(m.stack)
  }

  lemma ClosingPrepend(s: seq<byte>, f: Flags, m: Machine, m1: Machine, events: seq<Event>, r: Parsed)
    requires Invariant(s, m) && Invariant(s, m1) && SameContainer(m, m1, events)
    requires Iterate(s, f, m) == Iterate(s, f, m1)
    requires Closing(s, f, m1, r)
    ensures Closing(s, f, m, Prepend(events, r))
  {
    hide Iterate, Continue, Invariant, Popped, Below, Simulates;
    SimulatesPrepend(s, f, m, m1, events, r, Popped(m.stack), Below(m));
  }

  lemma Bounds(s: seq<byte>, m: Machine)
    requires Invariant(s, m)
    ensures m.pos <= |s| && (Inside(m.state) ==> |m.stack| >= 2)
  {
  }

  /* ----- single transitions ----- */

  function Skipped(s: seq<byte>, m: Machine): Machine
    requires m.pos <= |s|
  {
    m.(pos := SkipSpace(s, m.pos))
  }

  lemma Opens(s: seq<byte>, f: Flags, m: Machine, q: State)
    requires Invariant(s, m) && WantsValue(m.state)
    requires if q == ObjectInitial then Peek(s, m.pos) == LEFT_CURLY
             else q == ArrayInitial && Peek(s, m.pos) == LEFT_BRACKET
    ensures m.pos < |s| && Invariant(s, Skipped(s, Open(m, q)))
    ensures Iterate(s, f, m) == Iterate(s, f, Skipped(s, Open(m, q)))
  {
    hide ScanScalar, ScanString, Close, Count;
    assert Transit(s, f, m) == Next(Open(m, q));
  }

  lemma ClosingSame(s: seq<byte>, f: Flags, m: Machine, m1: Machine, r: Parsed)
    requires Invariant(s, m) && Invariant(s, m1) && SameContainer(m, m1, [])
    requires Iterate(s, f, m) == Iterate(s, f, m1)
    requires Closing(s, f, m1, r)
    ensures Closing(s, f, m, r)
  {
    ClosingPrepend(s, f, m, m1, [], r);
    assert [] + r.events == r.events;
  }

  lemma ClosingFailed(s: seq<byte>, f: Flags, m: Machine, r: Parsed)
    requires Invariant(s, m) && r.Failed?
    requires Iterate(s, f, m) == Rejected(m.events + r.events, r.code, r.offset)
    ensures Closing(s, f, m, r)
  {
  }

  /** Closing what has just been opened leads behind the value. */
  lemma OpenedStack(m: Machine, q: State)
    requires WantsValue(m.state)
    ensures var m' := Open(m, q); Below(m') == m.stack && Top(m') == 0 && Popped(m'.stack) == AfterValue(m.state)
  {
    assert Below(Open(m, q)) == m.stack;
  }

  /** `c` closes the container the automaton is in, which then reports `event`. */
  predicate ClosedBy(f: Flags, m: Machine, c: byte, event: Event)
  {
    var count := Top(m);
    if c == RIGHT_CURLY then
      && (m.state in {MemberValue, ObjectInitial} || (m.state == MemberDelimiter && f.trailingCommas))
      && event == EndObject(if m.state == MemberValue then count + 1 else count)
    else
      && c == RIGHT_BRACKET
      && (m.state in {Element, ArrayInitial} || (m.state == ElementDelimiter && f.trailingCommas))
      && event == EndArray(if m.state == Element then count + 1 else count)
  }

  lemma Closes(s: seq<byte>, f: Flags, m: Machine, event: Event)
    requires Invariant(s, m) && ClosedBy(f, m, Peek(s, m.pos), event)
    ensures m.pos < |s| && Closing(s, f, m, Done([event], m.pos + 1))
  {
    hide ScanScalar, ScanString, Open, Count;
    var m' := Machine(m.pos + 1, Popped(m.stack), Below(m), m.events + [event]);
    assert Transit(s, f, m) == Next(m');
  }

  /** A comma after an item counts it. */
  lemma Counts(s: seq<byte>, f: Flags, m: Machine, q: State)
    requires Invariant(s, m) && Peek(s, m.pos) == COMMA
    requires (m.state == MemberValue && q == MemberDelimiter) || (m.state == Element && q == ElementDelimiter)
    ensures m.pos < |s|
    ensures var m' := Skipped(s, Count(m, q));
            && Invariant(s, m') && Iterate(s, f, m) == Iterate(s, f, m')
            && m'.pos == SkipSpace(s, m.pos + 1) && m'.state == q
            && Top(m') == Top(m) + 1 && SameContainer(m, m', [])
  {
    hide ScanScalar, ScanString, Open, Close;
    assert Transit(s, f, m) == Next(Count(m, q));
  }

  lemma ReadsKey(s: seq<byte>, f: Flags, m: Machine)
    requires Invariant(s, m) && m.state in {ObjectInitial, MemberDelimiter} && Peek(s, m.pos) == QUOTE
    ensures m.pos < |s|
    ensures var name := ScanString(s, m.pos + 1);
            if name.Bad? then Iterate(s, f, m) == Rejected(m.events, name.code, name.offset)
            else
              var m' := Machine(SkipSpace(s, name.next), MemberKey, m.stack, m.events + [Key(name.value)]);
              Invariant(s, m') && Iterate(s, f, m) == Iterate(s, f, m')
  {
    hide ScanScalar, ScanString, Open, Close, Count;
    assert Transit(s, f, m) == Emit(m, KeyEvent(ScanString(s, m.pos + 1)), MemberKey);
  }

  lemma ReadsColon(s: seq<byte>, f: Flags, m: Machine)
    requires Invariant(s, m) && m.state == MemberKey && Peek(s, m.pos) == COLON
    ensures m.pos < |s|
    ensures var m' := m.(pos := SkipSpace(s, m.pos + 1), state := KeyValueDelimiter);
            Invariant(s, m') && Iterate(s, f, m) == Iterate(s, f, m')
  {
    hide ScanScalar, ScanString, Open, Close, Count;
    assert Transit(s, f, m) == Next(m.(pos := m.pos + 1, state := KeyValueDelimiter));
  }

  /** Without a transition the automaton stops with the error of its state. */
  lemma Stops(s: seq<byte>, f: Flags, m: Machine)
    requires Invariant(s, m) && m.state != FinishState
    requires Peek(s, m.pos) == 0 || Predict(m.state, Tokenize(Peek(s, m.pos))) == ErrorState
             || (!f.trailingCommas && m.state == MemberDelimiter && Peek(s, m.pos) == RIGHT_CURLY)
             || (!f.trailingCommas && m.state == ElementDelimiter && Peek(s, m.pos) == RIGHT_BRACKET)
    ensures Iterate(s, f, m) == Rejected(m.events, ErrorOf(m.state), m.pos)
  {
    hide ScanScalar, ScanString, Open, Close, Count;
  }

  /** An item that neither a comma nor the closing bracket follows. */
  lemma StopsInside(s: seq<byte>, f: Flags, m: Machine)
    requires Invariant(s, m) && Peek(s, m.pos) != COMMA
    requires || (m.state == MemberValue && Peek(s, m.pos) != RIGHT_CURLY)
             || (m.state == Element && Peek(s, m.pos) != RIGHT_BRACKET)
    ensures Closing(s, f, m, Failed([], ErrorOf(m.state), m.pos))
  {
    hide Iterate, Invariant;
    Stops(s, f, m);
    assert m.events + [] == m.events;
  }

  lemma ReadsScalar(s: seq<byte>, f: Flags, m: Machine)
    requires Invariant(s, m) && WantsValue(m.state)
    requires var c := Peek(s, m.pos); c != 0 && !Stray(c) && c != LEFT_CURLY && c != LEFT_BRACKET
    ensures Simulates(s, f, m, FromLexed(ScanScalar(s, m.pos, f)), AfterValue(m.state), m.stack)
  {
    hide ScanScalar, ScanString, Open, Close, Count;
    assert Transit(s, f, m) == Emit(m, ScanScalar(s, m.pos, f), AfterValue(m.state));
    assert m.events + [] == m.events;
  }

  /** A stray token is an invalid number to the recursive parser. */
  lemma StrayIsInvalid(s: seq<byte>, i: nat, f: Flags)
    requires i <= |s| && (Stray(Peek(s, i)) || Peek(s, i) == 0)
    ensures ParseValue(s, i, f) == Failed([], ValueInvalid, i)
  {
  }

  /* ----- constructs ----- */

  /** The byte at the cursor is not a bracket that would end the container instead of going on with it. */
  predicate GoesOn(s: seq<byte>, f: Flags, m: Machine) {
    var c := Peek(s, m.pos);
    match m.state
    case StartState => c != 0 && !Stray(c)
    case ObjectInitial => c != RIGHT_CURLY
    case MemberDelimiter => !(f.trailingCommas && c == RIGHT_CURLY)
    case ArrayInitial => c != RIGHT_BRACKET
    case ElementDelimiter => !(f.trailingCommas && c == RIGHT_BRACKET)
    case _ => true
  }

  lemma {:induction false} SimulateValue(s: seq<byte>, f: Flags, m: Machine)
    requires Invariant(s, m) && WantsValue(m.state) && GoesOn(s, f, m)
    ensures Simulates(s, f, m, ParseValue(s, m.pos, f), AfterValue(m.state), m.stack)
    decreases |s| - m.pos, 3
  {
    hide Iterate, Continue, Invariant, ScanScalar;
    Bounds(s, m);
    var c := Peek(s, m.pos);
    if c == LEFT_CURLY {
      SimulateObject(s, f, m);
    } else if c == LEFT_BRACKET {
      SimulateArray(s, f, m);
    } else if c == 0 || Stray(c) {
      StrayIsInvalid(s, m.pos, f);
      Stops(s, f, m);
      assert m.events + [] == m.events;
    } else {
      ReadsScalar(s, f, m);
    }
  }

  lemma {:induction false} SimulateObject(s: seq<byte>, f: Flags, m: Machine)
    requires Invariant(s, m) && WantsValue(m.state) && Peek(s, m.pos) == LEFT_CURLY
    ensures Simulates(s, f, m, ParseValue(s, m.pos, f), AfterValue(m.state), m.stack)
    decreases |s| - m.pos, 2
  {
    hide Iterate, Continue, Invariant, ScanScalar, ParseMembers, ParseElements;
    Opens(s, f, m, ObjectInitial);
    OpenedStack(m, ObjectInitial);
    var m1 := Skipped(s, Open(m, ObjectInitial));
    if Peek(s, m1.pos) == RIGHT_CURLY {
      Closes(s, f, m1, EndObject(0));
      assert m1.events + [EndObject(0)] == m.events + [StartObject, EndObject(0)];
    } else {
      SimulateMembers(s, f, m1);
      SimulatesPrepend(s, f, m, m1, [StartObject], ParseMembers(s, m1.pos, f, 0), AfterValue(m.state), m.stack);
    }
  }

  lemma {:induction false} SimulateArray(s: seq<byte>, f: Flags, m: Machine)
    requires Invariant(s, m) && WantsValue(m.state) && Peek(s, m.pos) == LEFT_BRACKET
    ensures Simulates(s, f, m, ParseValue(s, m.pos, f), AfterValue(m.state), m.stack)
    decreases |s| - m.pos, 2
  {
    hide Iterate, Continue, Invariant, ScanScalar, ParseMembers, ParseElements;
    Opens(s, f, m, ArrayInitial);
    OpenedStack(m, ArrayInitial);
    var m1 := Skipped(s, Open(m, ArrayInitial));
    if Peek(s, m1.pos) == RIGHT_BRACKET {
      Closes(s, f, m1, EndArray(0));
      assert m1.events + [EndArray(0)] == m.events + [StartArray, EndArray(0)];
    } else {
      SimulateElements(s, f, m1);
      SimulatesPrepend(s, f, m, m1, [StartArray], ParseElements(s, m1.pos, f, 0), AfterValue(m.state), m.stack);
    }
  }

  /** After a member the automaton is in MemberValue, in front of what follows the whitespace. */
  lemma {:induction false} SimulateMember(s: seq<byte>, f: Flags, m: Machine)
    requires Invariant(s, m) && m.state in {ObjectInitial, MemberDelimiter} && GoesOn(s, f, m)
    ensures var r := ParseMember(s, m.pos, f);
            if r.Failed? then Iterate(s, f, m) == Rejected(m.events + r.events, r.code, r.offset)
            else
              var m' := Machine(r.next, MemberValue, m.stack, m.events + r.events);
              Invariant(s, m') && Iterate(s, f, m) == Iterate(s, f, m')
    decreases |s| - m.pos, 0
  {
    hide Iterate, Continue, Invariant, ScanString, ParseValue;
    assert m.events + [] == m.events;
    if Peek(s, m.pos) != QUOTE {
      Stops(s, f, m);
    } else {
      ReadsKey(s, f, m);
      var name := ScanString(s, m.pos + 1);
      if name.Lexed? {
        var m1 := Machine(SkipSpace(s, name.next), MemberKey, m.stack, m.events + [Key(name.value)]);
        if Peek(s, m1.pos) != COLON {
          Stops(s, f, m1);
        } else {
          ReadsColon(s, f, m1);
          SimulateMemberValue(s, f, m, m1, name.value);
        }
      }
    }
  }

  lemma {:induction false} SimulateMemberValue(s: seq<byte>, f: Flags, m: Machine, m1: Machine, name: seq<byte>)
    requires Invariant(s, m) && Invariant(s, m1) && m.pos < m1.pos < |s|
    requires m1 == Machine(m1.pos, MemberKey, m.stack, m.events + [Key(name)])
    requires var m2 := m1.(pos := SkipSpace(s, m1.pos + 1), state := KeyValueDelimiter);
             Invariant(s, m2) && Iterate(s, f, m) == Iterate(s, f, m2)
    ensures var r := ParseValue(s, SkipSpace(s, m1.pos + 1), f);
            if r.Failed? then Iterate(s, f, m) == Rejected(m.events + ([Key(name)] + r.events), r.code, r.offset)
            else
              var m' := Machine(SkipSpace(s, r.next), MemberValue, m.stack, m.events + ([Key(name)] + r.events));
              Invariant(s, m') && Iterate(s, f, m) == Iterate(s, f, m')
    decreases |s| - m1.pos, 4
  {
    hide Iterate, ParseValue;
    var m2 := m1.(pos := SkipSpace(s, m1.pos + 1), state := KeyValueDelimiter);
    SimulateValue(s, f, m2);
    SimulatesPrepend(s, f, m, m2, [Key(name)], ParseValue(s, m2.pos, f), MemberValue, m.stack);
  }

  lemma {:induction false} SimulateMembers(s: seq<byte>, f: Flags, m: Machine)
    requires Invariant(s, m) && m.state in {ObjectInitial, MemberDelimiter} && GoesOn(s, f, m)
    ensures Closing(s, f, m, ParseMembers(s, m.pos, f, Top(m)))
    decreases |s| - m.pos, 2
  {
    hide Iterate, Invariant, ParseMember, MoreMembers, Simulates, SkipSpace, IsSpace, Peek, GoesOn;
    Bounds(s, m);
    SimulateMember(s, f, m);
    var member := ParseMember(s, m.pos, f);
    if member.Failed? {
      ClosingFailed(s, f, m, member);
    }
    if member.Done? {
      var m1 := Machine(member.next, MemberValue, m.stack, m.events + member.events);
      SimulateMoreMembers(s, f, m1);
      ClosingPrepend(s, f, m, m1, member.events, MoreMembers(s, m1.pos, f, Top(m) + 1));
    }
  }

  lemma {:induction false} SimulateMoreMembers(s: seq<byte>, f: Flags, m: Machine)
    requires Invariant(s, m) && m.state == MemberValue
    ensures Closing(s, f, m, MoreMembers(s, m.pos, f, Top(m) + 1))
    decreases |s| - m.pos, 3
  {
    hide Iterate, Invariant, ParseMembers, Count, Below, Top, Popped, Simulates, SkipSpace, IsSpace, Peek;
    Bounds(s, m);
    if Peek(s, m.pos) == RIGHT_CURLY {
      Closes(s, f, m, EndObject(Top(m) + 1));
    } else if Peek(s, m.pos) != COMMA {
      StopsInside(s, f, m);
    } else {
      Counts(s, f, m, MemberDelimiter);
      var m1 := Skipped(s, Count(m, MemberDelimiter));
      SimulateAfterCommaMembers(s, f, m1);
      ClosingSame(s, f, m, m1, MoreMembers(s, m.pos, f, Top(m) + 1));
    }
  }

  lemma {:induction false} SimulateAfterCommaMembers(s: seq<byte>, f: Flags, m: Machine)
    requires Invariant(s, m) && m.state == MemberDelimiter
    ensures Closing(s, f, m, if f.trailingCommas && Peek(s, m.pos) == RIGHT_CURLY
                             then Done([EndObject(Top(m))], m.pos + 1)
                             else ParseMembers(s, m.pos, f, Top(m)))
    decreases |s| - m.pos, 6
  {
    hide Iterate, Invariant, ParseMembers, Below, Top, Popped, Simulates;
    if f.trailingCommas && Peek(s, m.pos) == RIGHT_CURLY {
      Closes(s, f, m, EndObject(Top(m)));
    } else {
      SimulateMembers(s, f, m);
    }
  }

  /** After an element the automaton is in Element, in front of what follows the whitespace. */
  lemma {:induction false} SimulateElement(s: seq<byte>, f: Flags, m: Machine)
    requires Invariant(s, m) && m.state in {ArrayInitial, ElementDelimiter} && GoesOn(s, f, m)
    ensures var r := ParseValue(s, m.pos, f);
            if r.Failed? then Iterate(s, f, m) == Rejected(m.events + r.events, r.code, r.offset)
            else
              var m' := Machine(SkipSpace(s, r.next), Element, m.stack, m.events + r.events);
              Invariant(s, m') && Iterate(s, f, m) == Iterate(s, f, m')
    decreases |s| - m.pos, 4
  {
    hide Iterate, ParseValue;
    SimulateValue(s, f, m);
  }

  lemma {:induction false} SimulateElements(s: seq<byte>, f: Flags, m: Machine)
    requires Invariant(s, m) && m.state in {ArrayInitial, ElementDelimiter} && GoesOn(s, f, m)
    ensures Closing(s, f, m, ParseElements(s, m.pos, f, Top(m)))
    decreases |s| - m.pos, 5
  {
    hide Iterate, Invariant, ParseValue, MoreElements, Simulates, SkipSpace, IsSpace, Peek, GoesOn;
    Bounds(s, m);
    SimulateElement(s, f, m);
    var element := ParseValue(s, m.pos, f);
    if element.Done? {
      var m1 := Machine(SkipSpace(s, element.next), Element, m.stack, m.events + element.events);
      SimulateMoreElements(s, f, m1);
      ClosingPrepend(s, f, m, m1, element.events, MoreElements(s, m1.pos, f, Top(m) + 1));
    } else {
      ClosingFailed(s, f, m, element);
    }
  }

  lemma {:induction false} SimulateMoreElements(s: seq<byte>, f: Flags, m: Machine)
    requires Invariant(s, m) && m.state == Element
    ensures Closing(s, f, m, MoreElements(s, m.pos, f, Top(m) + 1))
    decreases |s| - m.pos, 3
  {
    hide Iterate, Invariant, ParseElements, Count, Below, Top, Popped, Simulates, SkipSpace, IsSpace, Peek;
    Bounds(s, m);
    if Peek(s, m.pos) == RIGHT_BRACKET {
      Closes(s, f, m, EndArray(Top(m) + 1));
    } else if Peek(s, m.pos) != COMMA {
      StopsInside(s, f, m);
    } else {
      Counts(s, f, m, ElementDelimiter);
      var m1 := Skipped(s, Count(m, ElementDelimiter));
      SimulateAfterCommaElements(s, f, m1);
      ClosingSame(s, f, m, m1, MoreElements(s, m.pos, f, Top(m) + 1));
    }
  }

  lemma {:induction false} SimulateAfterCommaElements(s: seq<byte>, f: Flags, m: Machine)
    requires Invariant(s, m) && m.state == ElementDelimiter
    ensures Closing(s, f, m, if f.trailingCommas && Peek(s, m.pos) == RIGHT_BRACKET
                             then Done([EndArray(Top(m))], m.pos + 1)
                             else ParseElements(s, m.pos, f, Top(m)))
    decreases |s| - m.pos, 6
  {
    hide Iterate, Invariant, ParseElements, Below, Top, Popped, Simulates;
    if f.trailingCommas && Peek(s, m.pos) == RIGHT_BRACKET {
      Closes(s, f, m, EndArray(Top(m)));
    } else {
      SimulateElements(s, f, m);
    }
  }

  /** The root starts with a byte that has a token of its own but starts no value. */
  predicate StrayRoot(s: seq<byte>) {
    Stray(Peek(s, SkipSpace(s, 0)))
  }

  /**
   * For every input and all flags the iterative parser gives the outcome of the recursive one:
   * same verdict, events, counts, error code and offset, and the same final position. The one
   * exception is a stray token at the root, which they reject with different codes.
   */
  lemma ParsersAgree(s: seq<byte>, f: Flags)
    ensures !StrayRoot(s) ==> IterativeParse(s, f) == Parse(s, f)
    ensures StrayRoot(s) ==>
              && Parse(s, f) == Rejected([], ValueInvalid, SkipSpace(s, 0))
              && IterativeParse(s, f) == Rejected([], DocumentEmpty, SkipSpace(s, 0))
  {
    var i := SkipSpace(s, 0);
    var m := Machine(i, StartState, [], []);
    if StrayRoot(s) {
      StrayIsInvalid(s, i, f);
    } else if Peek(s, i) != 0 {
      SimulateValue(s, f, m);
      var root := ParseValue(s, i, f);
      assert m.events + root.events == root.events;
      if root.Done? && !f.stopWhenDone {
        var m' := Machine(SkipSpace(s, root.next), FinishState, [], root.events);
        assert Iterate(s, f, m) == Iterate(s, f, m');
      }
    }
  }

  /** The parsers return equal results exactly when the root does not start with a stray token. */
  lemma ParsersAgreeIff(s: seq<byte>, f: Flags)
    ensures IterativeParse(s, f) == Parse(s, f) <==> !StrayRoot(s)
  {
    ParsersAgree(s, f);
  }
}
