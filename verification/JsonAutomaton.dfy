/**
 * The iterative parser of rapidjson, a pushdown automaton: a token classifier, a transition
 * table, and a stack of integers that holds a saved state and a count per open bracket.
 */
module JsonAutomaton {
  import opened Bytes
  import opened JsonText
  import opened JsonDescent

  datatype Token =
    | LeftBracket | RightBracket | LeftCurly | RightCurly | Comma | Colon
    | StringToken | FalseToken | TrueToken | NullToken | NumberToken

  datatype State =
    | FinishState | ErrorState | StartState
    | ObjectInitial | MemberKey | MemberValue | ObjectFinish
    | ArrayInitial | Element | ArrayFinish
    | ValueState
    | ElementDelimiter | MemberDelimiter | KeyValueDelimiter

  /** The number of a state in the source's enumeration, as it is kept on the stack. */
  function Code(q: State): nat {
    match q
    case FinishState => 0
    case ErrorState => 1
    case StartState => 2
    case ObjectInitial => 3
    case MemberKey => 4
    case MemberValue => 5
    case ObjectFinish => 6
    case ArrayInitial => 7
    case Element => 8
    case ArrayFinish => 9
    case ValueState => 10
    case ElementDelimiter => 11
    case MemberDelimiter => 12
    case KeyValueDelimiter => 13
  }

  /** The cast back from the stack. */
  function FromCode(n: nat): State {
    if n == 0 then FinishState
    else if n == 2 then StartState
    else if n == 3 then ObjectInitial
    else if n == 4 then MemberKey
    else if n == 5 then MemberValue
    else if n == 6 then ObjectFinish
    else if n == 7 then ArrayInitial
    else if n == 8 then Element
    else if n == 9 then ArrayFinish
    else if n == 10 then ValueState
    else if n == 11 then ElementDelimiter
    else if n == 12 then MemberDelimiter
    else if n == 13 then KeyValueDelimiter
    else ErrorState
  }

  function Tokenize(c: byte): Token {
    if c == QUOTE then StringToken
    else if c == COMMA then Comma
    else if c == COLON then Colon
    else if c == LEFT_BRACKET then LeftBracket
    else if c == RIGHT_BRACKET then RightBracket
    else if c == LETTER_F then FalseToken
    else if c == LETTER_N then NullToken
    else if c == LETTER_T then TrueToken
    else if c == LEFT_CURLY then LeftCurly
    else if c == RIGHT_CURLY then RightCurly
    else NumberToken
  }

  /** The columns of the transition table that a value may start with, `q` being the one for a scalar. */
  function PredictValue(t: Token, q: State): State {
    match t
    case LeftBracket => ArrayInitial
    case LeftCurly => ObjectInitial
    case RightBracket => ErrorState
    case RightCurly => ErrorState
    case Comma => ErrorState
    case Colon => ErrorState
    case _ => q
  }

  function Predict(q: State, t: Token): State {
    match q
    case StartState => PredictValue(t, ValueState)
    case ObjectInitial => if t == RightCurly then ObjectFinish else if t == StringToken then MemberKey else ErrorState
    case MemberKey => if t == Colon then KeyValueDelimiter else ErrorState
    case MemberValue => if t == RightCurly then ObjectFinish else if t == Comma then MemberDelimiter else ErrorState
    case ArrayInitial => if t == RightBracket then ArrayFinish else PredictValue(t, Element)
    case Element => if t == RightBracket then ArrayFinish else if t == Comma then ElementDelimiter else ErrorState
    case ElementDelimiter => if t == RightBracket then ArrayFinish else PredictValue(t, Element)
    case MemberDelimiter => if t == RightCurly then ObjectFinish else if t == StringToken then MemberKey else ErrorState
    case KeyValueDelimiter => PredictValue(t, MemberValue)
    case _ => ErrorState
  }

  /** The automaton between two tokens. */
  datatype Machine = Machine(pos: nat, state: State, stack: seq<nat>, events: seq<Event>)

  predicate Inside(q: State) {
    q != FinishState && q != StartState
  }

  /** The states the automaton can rest in. */
  predicate Resting(q: State) {
    q !in {ErrorState, ObjectFinish, ArrayFinish, ValueState}
  }

  /** A pair per open bracket: Start saved at the bottom, Element or MemberValue above it. */
  predicate GoodStack(stack: seq<nat>) {
    && |stack| % 2 == 0
    && (|stack| > 0 ==> stack[0] == Code(StartState))
    && forall k | 0 < k < |stack| && k % 2 == 0 :: stack[k] == Code(Element) || stack[k] == Code(MemberValue)
  }

  predicate Balanced(m: Machine) {
    && Resting(m.state)
    && GoodStack(m.stack)
    && (Inside(m.state) <==> |m.stack| > 0)
  }

  predicate Invariant(s: seq<byte>, m: Machine) {
    m.pos <= |s| && Balanced(m)
  }

  datatype Step = Next(machine: Machine) | Reject(events: seq<Event>, code: ErrorCode, offset: nat)

  /** The state to come back to when the bracket that opens in state `q` is closed. */
  function Saved(q: State): State {
    if q == ArrayInitial || q == ElementDelimiter then Element
    else if q == KeyValueDelimiter then MemberValue
    else q
  }

  function Open(m: Machine, dst: State): (r: Machine)
    ensures Balanced(m) && Saved(m.state) in {StartState, Element, MemberValue} && Resting(dst) && Inside(dst) ==>
        Balanced(r)
  {
    Machine(m.pos + 1, dst, m.stack + [Code(Saved(m.state)), 0],
            m.events + [if dst == ObjectInitial then StartObject else StartArray])
  }

  /** Pops the count and the saved state; the count is one more when an item precedes the bracket. */
  function Close(m: Machine, item: State, end: nat -> Event): (r: Machine)
    requires |m.stack| >= 2
    ensures Balanced(m) ==> Balanced(r)
  {
    var n := |m.stack|;
    var count := if m.state == item then m.stack[n - 1] + 1 else m.stack[n - 1];
    var saved := FromCode(m.stack[n - 2]);
    Machine(m.pos + 1, if saved == StartState then FinishState else saved, m.stack[..n - 2], m.events + [end(count)])
  }

  function Emit(m: Machine, r: Lexed<Event>, dst: State): Step {
    match r
    case Lexed(event, next) => Next(Machine(next, dst, m.stack, m.events + [event]))
    case Bad(code, offset) => Reject(m.events, code, offset)
  }

  function KeyEvent(r: Lexed<seq<byte>>): Lexed<Event> {
    match r
    case Lexed(name, next) => Lexed(Key(name), next)
    case Bad(code, offset) => Bad(code, offset)
  }

  /** The error that a state stands for when no token continues it. */
  function ErrorOf(q: State): ErrorCode {
    match q
    case StartState => DocumentEmpty
    case FinishState => DocumentRootNotSingular
    case ObjectInitial => ObjectMissName
    case MemberDelimiter => ObjectMissName
    case MemberKey => ObjectMissColon
    case MemberValue => ObjectMissCommaOrCurlyBracket
    case KeyValueDelimiter => ValueInvalid
    case ArrayInitial => ValueInvalid
    case ElementDelimiter => ValueInvalid
    case _ => ArrayMissCommaOrSquareBracket
  }

  /** One transition, on the token at the cursor. */
  function Transit(s: seq<byte>, f: Flags, m: Machine): (r: Step)
    requires Invariant(s, m) && Peek(s, m.pos) != 0
    ensures r.Next? ==> Invariant(s, r.machine) && m.pos < r.machine.pos
  {
    var dst := Predict(m.state, Tokenize(Peek(s, m.pos)));
    match dst
    case ErrorState => Reject(m.events, ErrorOf(m.state), m.pos)
    case ObjectInitial => Next(Open(m, dst))
    case ArrayInitial => Next(Open(m, dst))
    case MemberKey => Emit(m, KeyEvent(ScanString(s, m.pos + 1)), dst)
    case KeyValueDelimiter => Next(m.(pos := m.pos + 1, state := dst))
    case MemberDelimiter => Next(Count(m, dst))
    case ElementDelimiter => Next(Count(m, dst))
    case ObjectFinish =>
      if !f.trailingCommas && m.state == MemberDelimiter then Reject(m.events, ObjectMissName, m.pos)
      else Next(Close(m, MemberValue, (n: nat) => EndObject(n)))
    case ArrayFinish =>
      if !f.trailingCommas && m.state == ElementDelimiter then Reject(m.events, ValueInvalid, m.pos)
      else Next(Close(m, Element, (n: nat) => EndArray(n)))
    case ValueState => Emit(m, ScanScalar(s, m.pos, f), FinishState)
    case _ => Emit(m, ScanScalar(s, m.pos, f), dst)
  }

  function Count(m: Machine, dst: State): (r: Machine)
    requires |m.stack| > 0
    ensures Balanced(m) && Resting(dst) && Inside(dst) ==> Balanced(r)
  {
    var n := |m.stack|;
    Machine(m.pos + 1, dst, m.stack[n - 1 := m.stack[n - 1] + 1], m.events)
  }

  /** The loop of the iterative parser, from a state in which whitespace has been skipped. */
  function Iterate(s: seq<byte>, f: Flags, m: Machine): Outcome
    requires Invariant(s, m)
    decreases |s| - m.pos, 0
  {
    if Peek(s, m.pos) == 0 then
      if m.state == FinishState then Accepted(m.events, m.pos) else Rejected(m.events, ErrorOf(m.state), m.pos)
    else
      match Transit(s, f, m)
      case Reject(events, code, offset) => Rejected(events, code, offset)
      case Next(m') => Continue(s, f, m')
  }

  /** What the loop does after a transition. */
  function Continue(s: seq<byte>, f: Flags, m: Machine): Outcome
    requires Invariant(s, m)
    decreases |s| - m.pos, 1
  {
    if f.stopWhenDone && m.state == FinishState then Accepted(m.events, m.pos)
    else Iterate(s, f, m.(pos := SkipSpace(s, m.pos)))
  }

  function IterativeParse(s: seq<byte>, f: Flags): Outcome {
    Iterate(s, f, Machine(SkipSpace(s, 0), StartState, [], []))
  }
}
