/**
 * The DOM of rapidjson: values with the flags their constructors set, the traversal that turns a
 * value into events, and the handler that turns events back into a value on a stack.
 */
module JsonDocument {
  import opened Bytes
  import opened JsonText
  import opened JsonDescent

  /* ----- numbers ----- */

  /** The number flags of a value. */
  datatype Fits = Fits(asInt: bool, asUint: bool, asInt64: bool, asUint64: bool)

  const NUMBER_INT := Fits(true, false, true, false)
  const NUMBER_UINT := Fits(false, true, true, true)
  const NUMBER_INT64 := Fits(false, false, true, false)
  const NUMBER_UINT64 := Fits(false, false, false, true)

  predicate IsInt32(n: int) { -0x8000_0000 <= n < 0x8000_0000 }

  predicate IsUint32(n: int) { 0 <= n < WORD }

  predicate IsInt64(n: int) { 0 - INT64_LIMIT <= n < INT64_LIMIT }

  predicate IsUint64(n: int) { 0 <= n < UINT64_LIMIT }

  /** The 64-bit pattern of a signed number. */
  function Pattern(n: int): nat
    requires IsInt64(n)
  {
    if n < 0 then n + UINT64_LIMIT else n
  }

  function FromInt(i: int): Value
    requires IsInt32(i)
  {
    Number(if i >= 0 then NUMBER_INT.(asUint := true, asUint64 := true) else NUMBER_INT, Pattern(i))
  }

  /** The bits that the source tests with a mask: whether `n` has none at position `low` or above. */
  predicate NoBitsFrom(n: nat, low: nat) {
    n < low
  }

  function FromUint(u: nat): Value
    requires IsUint32(u)
  {
    Number(if u >= 0x8000_0000 then NUMBER_UINT else NUMBER_UINT.(asInt := true), u)
  }

  function FromInt64(i: int): Value
    requires IsInt64(i)
  {
    var flags :=
      if i >= 0 then NUMBER_INT64.(asUint64 := true, asUint := NoBitsFrom(i, WORD), asInt := NoBitsFrom(i, 0x8000_0000))
      else NUMBER_INT64.(asInt := i >= -0x8000_0000);
    Number(flags, Pattern(i))
  }

  function FromUint64(u: nat): Value
    requires IsUint64(u)
  {
    Number(NUMBER_UINT64.(asInt64 := NoBitsFrom(u, INT64_LIMIT), asUint := NoBitsFrom(u, WORD),
                          asInt := NoBitsFrom(u, 0x8000_0000)), u)
  }

  /** The reads of the number union: the pattern itself or its low half, as signed or unsigned. */
  function GetInt(v: Value): int
    requires v.Number?
  {
    var low := v.pattern % WORD;
    if low >= 0x8000_0000 then low - WORD else low
  }

  function GetUint(v: Value): nat
    requires v.Number?
  {
    v.pattern % WORD
  }

  function GetInt64(v: Value): int
    requires v.Number?
  {
    if v.pattern >= INT64_LIMIT then v.pattern - UINT64_LIMIT else v.pattern
  }

  function GetUint64(v: Value): nat
    requires v.Number?
  {
    v.pattern
  }

  /** The flags hold exactly when the number `n` is in the range they name, and then reading it gives `n`. */
  ghost predicate Represents(v: Value, n: int) {
    && v.Number?
    && (v.fits.asInt <==> IsInt32(n)) && (v.fits.asInt ==> GetInt(v) == n)
    && (v.fits.asUint <==> IsUint32(n)) && (v.fits.asUint ==> GetUint(v) == n)
    && (v.fits.asInt64 <==> IsInt64(n)) && (v.fits.asInt64 ==> GetInt64(v) == n)
    && (v.fits.asUint64 <==> IsUint64(n)) && (v.fits.asUint64 ==> GetUint64(v) == n)
  }

  /** All four integer constructors represent their argument, whichever of them is used. */
  lemma ConstructorsRepresent(n: int)
    ensures IsInt32(n) ==> Represents(FromInt(n), n)
    ensures IsUint32(n) ==> Represents(FromUint(n), n)
    ensures IsInt64(n) ==> Represents(FromInt64(n), n)
    ensures IsUint64(n) ==> Represents(FromUint64(n), n)
  {
  }

  /** So a number has one representation, and values can be compared by it. */
  lemma RepresentationUnique(v: Value, w: Value, n: int)
    requires Represents(v, n) && Represents(w, n) && (IsInt64(n) || IsUint64(n))
    requires v.pattern < UINT64_LIMIT && w.pattern < UINT64_LIMIT
    ensures v == w
  {
  }

  /* ----- values ----- */

  datatype Storage = Referenced | Copied | Inline

  /** The longest string that is kept in the value itself, with 48-bit pointers. */
  const SHORT_MAX: nat := 13

  datatype Value =
    | NullValue
    | BoolValue(b: bool)
    | Number(fits: Fits, pattern: nat)
    | Real(negative: bool, significand: nat, exponent: int)
    | Text(storage: Storage, chars: seq<byte>)
    | Object(members: seq<Member>)
    | Array(elements: seq<Value>)

  datatype Member = Member(name: Value, value: Value)

  /** The two string constructors: by reference, and by copy into the value or into the allocator. */
  function MakeText(chars: seq<byte>, copy: bool): Value {
    Text(if !copy then Referenced else if |chars| <= SHORT_MAX then Inline else Copied, chars)
  }

  /** A call of the handler; `copy` matters for strings only. */
  datatype Call = Call(event: Event, copy: bool)

  /* ----- the traversal ----- */

  /** The value and everything in it was built by the typed constructors, and member names are strings. */
  ghost predicate Typed(v: Value) {
    match v
    case Number(_, _) => exists n: int :: BuiltFrom(v, n)
    case Text(_, chars) => v == MakeText(chars, false) || v == MakeText(chars, true)
    case Object(members) => forall m | m in members :: m.name.Text? && Typed(m.name) && Typed(m.value)
    case Array(elements) => forall e | e in elements :: Typed(e)
    case _ => true
  }

  /** One of the integer constructors was given `n`. */
  predicate BuiltFrom(v: Value, n: int) {
    || (IsInt32(n) && v == FromInt(n))
    || (IsUint32(n) && v == FromUint(n))
    || (IsInt64(n) && v == FromInt64(n))
    || (IsUint64(n) && v == FromUint64(n))
  }

  /** The value's number is sent in the first type that fits. */
  function NumberEvent(v: Value): Event
    requires v.Number?
  {
    if v.fits.asInt then Int(GetInt(v))
    else if v.fits.asUint then Uint(GetUint(v))
    else if v.fits.asInt64 then Int64(GetInt64(v))
    else Uint64(GetUint64(v))
  }

  function Accept(v: Value): seq<Call>
    decreases v
  {
    match v
    case NullValue => [Call(Null, false)]
    case BoolValue(b) => [Call(Bool(b), false)]
    case Number(_, _) => [Call(NumberEvent(v), false)]
    case Real(negative, m, p) => [Call(Double(negative, m, p), false)]
    case Text(storage, chars) => [Call(String(chars), storage != Referenced)]
    case Object(members) => [Call(StartObject, false)] + AcceptMembers(members) + [Call(EndObject(|members|), false)]
    case Array(elements) => [Call(StartArray, false)] + AcceptElements(elements) + [Call(EndArray(|elements|), false)]
  }

  function AcceptMembers(members: seq<Member>): seq<Call>
    decreases members
  {
    if members == [] then []
    else
      AcceptMember(members[0]) + AcceptMembers(members[1..])
  }

  function AcceptMember(m: Member): seq<Call>
    decreases m
  {
    (if m.name.Text? then [Call(Key(m.name.chars), m.name.storage != Referenced)] else []) + Accept(m.value)
  }

  function AcceptElements(elements: seq<Value>): seq<Call>
    decreases elements
  {
    if elements == [] then [] else Accept(elements[0]) + AcceptElements(elements[1..])
  }

  /* ----- the handler ----- */

  /** The value a scalar event constructs. */
  function Construct(call: Call): Option<Value> {
    match call.event
    case Null => Some(NullValue)
    case Bool(b) => Some(BoolValue(b))
    case Int(i) => if IsInt32(i) then Some(FromInt(i)) else None
    case Uint(u) => if IsUint32(u) then Some(FromUint(u)) else None
    case Int64(i) => if IsInt64(i) then Some(FromInt64(i)) else None
    case Uint64(u) => if IsUint64(u) then Some(FromUint64(u)) else None
    case Double(negative, m, p) => Some(Real(negative, m, p))
    case String(text) => Some(MakeText(text, call.copy))
    case Key(name) => Some(MakeText(name, call.copy))
    case StartObject => Some(Object([]))
    case StartArray => Some(Array([]))
    case _ => None
  }

  /** `2 * count` values read as name-value pairs. */
  function Pairs(values: seq<Value>): seq<Member>
    requires |values| % 2 == 0
  {
    if values == [] then [] else [Member(values[0], values[1])] + Pairs(values[2..])
  }

  /** One call on the stack of values; none when the stack would underflow or the argument is out of its type. */
  function Apply(stack: seq<Value>, call: Call): Option<seq<Value>> {
    var n := |stack|;
    match call.event
    case EndObject(count) =>
      if n < 2 * count + 1 then None
      else Some(stack[..n - 2 * count - 1] + [Object(Pairs(stack[n - 2 * count..]))])
    case EndArray(count) =>
      if n < count + 1 then None
      else Some(stack[..n - count - 1] + [Array(stack[n - count..])])
    case _ =>
      match Construct(call)
      case None => None
      case Some(v) => Some(stack + [v])
  }

  function Replay(stack: seq<Value>, calls: seq<Call>): Option<seq<Value>>
    decreases |calls|
  {
    if calls == [] then Some(stack)
    else
      match Apply(stack, calls[0])
      case None => None
      case Some(stack') => Replay(stack', calls[1..])
  }

  lemma {:induction false} ReplayConcat(stack: seq<Value>, a: seq<Call>, b: seq<Call>)
    ensures Replay(stack, a + b) ==
            match Replay(stack, a)
            case None => None
            case Some(stack') => Replay(stack', b)
    decreases |a|
  {
    hide Apply;
    if a == [] {
      assert a + b == b;
    } else {
      assert (a + b)[0] == a[0] && (a + b)[1..] == a[1..] + b;
      var stack' := Apply(stack, a[0]);
      if stack'.Some? {
        ReplayConcat(stack'.value, a[1..], b);
      }
    }
  }

  lemma ReplayOne(stack: seq<Value>, call: Call)
    ensures Replay(stack, [call]) == Apply(stack, call)
  {
    hide Apply;
    assert [call][1..] == [];
  }

  /* ----- replaying a traversal rebuilds the value ----- */

  /** The names and values of members, as they lie on the stack. */
  function Flatten(members: seq<Member>): seq<Value> {
    if members == [] then [] else [members[0].name, members[0].value] + Flatten(members[1..])
  }

  lemma {:induction false} FlattenPairs(members: seq<Member>)
    ensures |Flatten(members)| == 2 * |members| && Pairs(Flatten(members)) == members
  {
    if members != [] {
      FlattenPairs(members[1..]);
      assert Flatten(members)[2..] == Flatten(members[1..]);
    }
  }

  lemma TypedNumberReplays(v: Value)
    requires v.Number? && Typed(v)
    ensures Construct(Call(NumberEvent(v), false)) == Some(v)
  {
    var n: int :| BuiltFrom(v, n);
    ConstructorsRepresent(n);
  }

  /** Replaying the traversal of a value pushes an equal value: flags, storage and member order included. */
  lemma {:induction false} ReplayAccept(stack: seq<Value>, v: Value)
    requires Typed(v)
    ensures Replay(stack, Accept(v)) == Some(stack + [v])
    decreases v
  {
    match v
    case Object(members) =>
      ReplayObject(stack, v);
    case Array(elements) =>
      ReplayArray(stack, v);
    case Number(_, _) =>
      TypedNumberReplays(v);
      ReplayOne(stack, Call(NumberEvent(v), false));
    case _ =>
      ReplayOne(stack, Accept(v)[0]);
  }

  lemma {:induction false} ReplayObject(stack: seq<Value>, v: Value)
    requires Typed(v) && v.Object?
    ensures Replay(stack, Accept(v)) == Some(stack + [v])
    decreases v, 0
  {
    var shell := stack + [Object([])];
    var body := AcceptMembers(v.members);
    var end := Call(EndObject(|v.members|), false);
    ReplayMembers(shell, v.members);
    FlattenPairs(v.members);
    var full := shell + Flatten(v.members);
    assert full[..|stack|] == stack && full[|stack| + 1..] == Flatten(v.members);
    ReplayOne(stack, Call(StartObject, false));
    ReplayOne(full, end);
    ReplayConcat(stack, [Call(StartObject, false)] + body, [end]);
    ReplayConcat(stack, [Call(StartObject, false)], body);
  }

  lemma {:induction false} ReplayMembers(stack: seq<Value>, members: seq<Member>)
    requires forall m | m in members :: m.name.Text? && Typed(m.name) && Typed(m.value)
    ensures Replay(stack, AcceptMembers(members)) == Some(stack + Flatten(members))
    decreases members
  {
    if members == [] {
      assert stack + [] == stack;
    } else {
      var m := members[0];
      ReplayMember(stack, members[0]);
      ReplayMembers(stack + [m.name, m.value], members[1..]);
      ReplayConcat(stack, AcceptMember(m), AcceptMembers(members[1..]));
      assert stack + [m.name, m.value] + Flatten(members[1..]) == stack + Flatten(members);
    }
  }

  lemma {:induction false} ReplayMember(stack: seq<Value>, m: Member)
    requires m.name.Text? && Typed(m.name) && Typed(m.value)
    ensures Replay(stack, AcceptMember(m)) == Some(stack + [m.name, m.value])
    decreases m
  {
    var key := [Call(Key(m.name.chars), m.name.storage != Referenced)];
    ReplayOne(stack, key[0]);
    ReplayAccept(stack + [m.name], m.value);
    ReplayConcat(stack, key, Accept(m.value));
    assert stack + [m.name] + [m.value] == stack + [m.name, m.value];
  }

  lemma {:induction false} ReplayArray(stack: seq<Value>, v: Value)
    requires Typed(v) && v.Array?
    ensures Replay(stack, Accept(v)) == Some(stack + [v])
    decreases v, 0
  {
    var shell := stack + [Array([])];
    var body := AcceptElements(v.elements);
    var end := Call(EndArray(|v.elements|), false);
    ReplayElements(shell, v.elements);
    var full := shell + v.elements;
    assert full[..|stack|] == stack && full[|stack| + 1..] == v.elements;
    ReplayOne(stack, Call(StartArray, false));
    ReplayOne(full, end);
    ReplayConcat(stack, [Call(StartArray, false)] + body, [end]);
    ReplayConcat(stack, [Call(StartArray, false)], body);
  }

  lemma {:induction false} ReplayElements(stack: seq<Value>, elements: seq<Value>)
    requires forall e | e in elements :: Typed(e)
    ensures Replay(stack, AcceptElements(elements)) == Some(stack + elements)
    decreases elements
  {
    if elements == [] {
      assert stack + [] == stack;
    } else {
      ReplayAccept(stack, elements[0]);
      ReplayElements(stack + [elements[0]], elements[1..]);
      ReplayConcat(stack, Accept(elements[0]), AcceptElements(elements[1..]));
      assert stack + [elements[0]] + elements[1..] == stack + elements;
    }
  }

  lemma EndArrayApplies(stack: seq<Value>, count: nat)
    requires count < |stack|
    ensures var n := |stack|;
            Apply(stack, Call(EndArray(count), false)) == Some(stack[..n - count - 1] + [Array(stack[n - count..])])
  {
  }

  lemma TopReplaced(stack: seq<Value>, v: Value)
    requires stack != []
    ensures stack[|stack| - 1 := v] == stack[..|stack| - 1] + [v]
  {
  }

  /** The document as a handler: a stack of values that events push on and fold up. */
  class Document {
    var stack: seq<Value>
    var root: Value

    constructor ()
      ensures stack == [] && root == NullValue
    {
      stack, root := [], NullValue;
    }

    method EndObject(memberCount: nat)
      requires |stack| > 2 * memberCount
      modifies this`stack
      ensures Apply(old(stack), Call(JsonText.EndObject(memberCount), false)) == Some(stack)
    {
      hide Construct;
      var n := |stack|;
      var members := stack[n - 2 * memberCount..];
      stack := stack[..n - 2 * memberCount];
      var top := |stack| - 1;
      stack := stack[top := Object(Pairs(members))];
      assert stack == old(stack)[..n - 2 * memberCount - 1] + [Object(Pairs(members))];
    }

    method EndArray(elementCount: nat)
      requires |stack| > elementCount
      modifies this`stack
      ensures Apply(old(stack), Call(JsonText.EndArray(elementCount), false)) == Some(stack)
    {
      hide Apply;
      EndArrayApplies(stack, elementCount);
      var n := |stack|;
      var elements := stack[n - elementCount..];
      stack := stack[..n - elementCount];
      var top := |stack| - 1;
      TopReplaced(stack, Array(elements));
      stack := stack[top := Array(elements)];
      assert old(stack)[..n - elementCount][..top] == old(stack)[..top];
    }

    /** The handler method of one event. */
    method Handle(call: Call)
      requires Apply(stack, call).Some?
      modifies this`stack
      ensures Apply(old(stack), call) == Some(stack)
    {
      match call.event
      case EndObject(n) => EndObject(n);
      case EndArray(n) => EndArray(n);
      case _ => stack := stack + [Construct(call).value];
    }

    /** Takes the events of a generator; the one value they leave becomes the document. */
    method Populate(calls: seq<Call>)
      requires stack == [] && Replay([], calls).Some? && |Replay([], calls).value| == 1
      modifies this
      ensures stack == [] && Replay([], calls) == Some([root])
    {
      hide Apply;
      for i := 0 to |calls|
        invariant Replay(stack, calls[i..]) == Replay([], calls)
      {
        assert calls[i..][0] == calls[i] && calls[i..][1..] == calls[i + 1..];
        Handle(calls[i]);
      }
      assert calls[|calls|..] == [];
      assert stack == [stack[0]];
      root := stack[0];
      stack := [];
    }

    /** A deep copy through events is equal to the original. */
    method Clone(v: Value)
      requires stack == [] && Typed(v)
      modifies this
      ensures stack == [] && root == v
    {
      hide Apply, Accept, Replay;
      ReplayAccept([], v);
      assert [] + [v] == [v];
      Populate(Accept(v));
    }
  }
}
