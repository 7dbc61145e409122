/** Parsing into a document: what the reader's events leave on the handler's stack. */
module JsonDom {
  import opened Bytes
  import opened JsonText
  import opened JsonDescent
  import opened JsonAutomaton
  import JsonAgreement
  import opened JsonDocument

  /** The handler calls of a parse; strings are copied unless they were decoded in place. */
  function Calls(events: seq<Event>, copy: bool): seq<Call> {
    if events == [] then [] else [Call(events[0], copy)] + Calls(events[1..], copy)
  }

  lemma {:induction false} CallsConcat(a: seq<Event>, b: seq<Event>, copy: bool)
    ensures Calls(a + b, copy) == Calls(a, copy) + Calls(b, copy)
  {
    if a == [] {
      assert a + b == b;
    } else {
      assert (a + b)[0] == a[0] && (a + b)[1..] == a[1..] + b;
      CallsConcat(a[1..], b, copy);
    }
  }

  /** The stack after the events, none if the handler fails. */
  function Build(stack: seq<Value>, events: seq<Event>, copy: bool): Option<seq<Value>> {
    Replay(stack, Calls(events, copy))
  }

  lemma BuildConcat(stack: seq<Value>, a: seq<Event>, b: seq<Event>, copy: bool)
    ensures Build(stack, a + b, copy) ==
            if Build(stack, a, copy).None? then None else Build(Build(stack, a, copy).value, b, copy)
  {
    CallsConcat(a, b, copy);
    ReplayConcat(stack, Calls(a, copy), Calls(b, copy));
  }

  lemma BuildOne(stack: seq<Value>, event: Event, copy: bool)
    ensures Build(stack, [event], copy) == Apply(stack, Call(event, copy))
  {
    hide Apply;
    assert [event][1..] == [] && Calls([], copy) == [];
    assert Calls([event], copy) == [Call(event, copy)];
    ReplayOne(stack, Call(event, copy));
  }

  /** The event constructs a typed value. */
  ghost predicate Constructs(event: Event, copy: bool) {
    && Construct(Call(event, copy)).Some? && Typed(Construct(Call(event, copy)).value)
    && !event.EndObject? && !event.EndArray?
  }

  /** The reader delivers integers within the range of their event. */
  lemma IntegerConstructs(negative: bool, n: nat, copy: bool)
    requires IntegerEvent(negative, n).Some?
    ensures Constructs(IntegerEvent(negative, n).value, copy)
  {
    var event := IntegerEvent(negative, n).value;
    var v := Construct(Call(event, copy)).value;
    match event
    case Int(m) => assert BuiltFrom(v, m);
    case Uint(m) => assert BuiltFrom(v, m);
    case Int64(m) => assert BuiltFrom(v, m);
    case Uint64(m) => assert BuiltFrom(v, m);
  }

  lemma RestConstructs(s: seq<byte>, i: nat, negative: bool, n: nat, digits: nat, b: nat, f: Flags, copy: bool)
    requires i < b <= |s| && digits > 0 && ScanRest(s, i, negative, n, digits, b, f).Lexed?
    ensures Constructs(ScanRest(s, i, negative, n, digits, b, f).value, copy)
  {
    hide Constructs, IntegerEvent, ScanFraction, ScanExponent;
    if IntegerEvent(negative, n).Some? {
      IntegerConstructs(negative, n, copy);
    }
    OthersConstruct(ScanRest(s, i, negative, n, digits, b, f).value, copy);
  }

  lemma OthersConstruct(event: Event, copy: bool)
    ensures event.Null? || event.Bool? || event.Double? || event.String? ==> Constructs(event, copy)
  {
  }

  lemma ScalarsConstruct(s: seq<byte>, i: nat, f: Flags, copy: bool)
    requires i <= |s| && ScanScalar(s, i, f).Lexed?
    ensures Constructs(ScanScalar(s, i, f).value, copy)
  {
    hide Constructs, ScanRest, ScanString, Decimal;
    OthersConstruct(ScanScalar(s, i, f).value, copy);
    if Peek(s, i) !in {LETTER_N, LETTER_T, LETTER_F, QUOTE} {
      var negative := Peek(s, i) == MINUS;
      var a := if negative then i + 1 else i;
      var b := if Peek(s, a) == ZERO then a + 1 else DigitsEnd(s, a);
      RestConstructs(s, i, negative, Decimal(s, a, b), b - a, b, f, copy);
    }
  }

  /** The events of a value push one typed value. */
  lemma {:induction false} ValueLeavesOne(s: seq<byte>, i: nat, f: Flags, stack: seq<Value>, copy: bool)
    returns (v: Value)
    requires i <= |s| && ParseValue(s, i, f).Done?
    ensures Typed(v) && Build(stack, ParseValue(s, i, f).events, copy) == Some(stack + [v])
    decreases |s| - i, 1
  {
    hide Apply, Build, Typed, ScanScalar;
    var c := Peek(s, i);
    if c == LEFT_CURLY {
      v := ObjectLeavesOne(s, i, f, stack, copy);
    } else if c == LEFT_BRACKET {
      v := ArrayLeavesOne(s, i, f, stack, copy);
    } else {
      v := ScalarLeavesOne(s, i, f, stack, copy);
    }
  }

  lemma ScalarLeavesOne(s: seq<byte>, i: nat, f: Flags, stack: seq<Value>, copy: bool) returns (v: Value)
    requires i <= |s| && ScanScalar(s, i, f).Lexed?
    ensures Typed(v) && Build(stack, [ScanScalar(s, i, f).value], copy) == Some(stack + [v])
  {
    hide Typed, ScanScalar, Construct, Build;
    var event := ScanScalar(s, i, f).value;
    ScalarsConstruct(s, i, f, copy);
    BuildOne(stack, event, copy);
    v := Construct(Call(event, copy)).value;
  }

  lemma {:induction false} ObjectLeavesOne(s: seq<byte>, i: nat, f: Flags, stack: seq<Value>, copy: bool)
    returns (v: Value)
    requires i <= |s| && ParseValue(s, i, f).Done? && Peek(s, i) == LEFT_CURLY
    ensures Typed(v) && Build(stack, ParseValue(s, i, f).events, copy) == Some(stack + [v])
    decreases |s| - i, 0
  {
    hide Build, ParseMembers, ParseElements;
    var j := SkipSpace(s, i + 1);
    BuildOne(stack, StartObject, copy);
    if Peek(s, j) == RIGHT_CURLY {
      v := Object([]);
      BuildOne(stack + [v], EndObject(0), copy);
      assert (stack + [v])[..|stack|] == stack && (stack + [v])[|stack| + 1..] == [];
      assert [StartObject, EndObject(0)] == [StartObject] + [EndObject(0)];
      BuildConcat(stack, [StartObject], [EndObject(0)], copy);
    } else {
      var members := MembersLeaveOne(s, j, f, stack, [], 0, copy);
      v := Object(members);
      BuildConcat(stack, [StartObject], ParseMembers(s, j, f, 0).events, copy);
      assert stack + [Object([])] + Flatten([]) == stack + [Object([])];
    }
  }

  ghost predicate TypedMembers(members: seq<Member>) {
    forall m | m in members :: m.name.Text? && Typed(m.name) && Typed(m.value)
  }

  /** The stack inside an object of which `members` have been read. */
  function OpenObject(stack: seq<Value>, members: seq<Member>): seq<Value> {
    stack + [Object([])] + Flatten(members)
  }

  lemma {:induction false} FlattenConcat(a: seq<Member>, m: Member)
    ensures Flatten(a + [m]) == Flatten(a) + [m.name, m.value]
  {
    if a == [] {
      assert [m][1..] == [];
    } else {
      assert (a + [m])[0] == a[0] && (a + [m])[1..] == a[1..] + [m];
      FlattenConcat(a[1..], m);
    }
  }

  lemma ClosesObject(stack: seq<Value>, members: seq<Member>, copy: bool)
    ensures Build(OpenObject(stack, members), [EndObject(|members|)], copy) == Some(stack + [Object(members)])
  {
    hide Build;
    FlattenPairs(members);
    var full := OpenObject(stack, members);
    BuildOne(full, EndObject(|members|), copy);
    assert full[..|stack|] == stack && full[|stack| + 1..] == Flatten(members);
  }

  /** A member pushes its name and its value. */
  lemma {:induction false} MemberLeavesTwo(s: seq<byte>, i: nat, f: Flags, stack: seq<Value>, members: seq<Member>,
                                           copy: bool) returns (m: Member)
    requires i <= |s| && ParseMember(s, i, f).Done?
    ensures m.name.Text? && Typed(m.name) && Typed(m.value)
    ensures Build(OpenObject(stack, members), ParseMember(s, i, f).events, copy) ==
        Some(OpenObject(stack, members + [m]))
    decreases |s| - i, 0
  {
    hide Build, ScanString, ParseValue;
    var name := ScanString(s, i + 1);
    var full := OpenObject(stack, members);
    var key := Key(name.value);
    BuildOne(full, key, copy);
    var text := MakeText(name.value, copy);
    var j := SkipSpace(s, SkipSpace(s, name.next) + 1);
    var v := ValueLeavesOne(s, j, f, full + [text], copy);
    BuildConcat(full, [key], ParseValue(s, j, f).events, copy);
    m := Member(text, v);
    FlattenConcat(members, m);
    assert full + [text] + [v] == OpenObject(stack, members + [m]);
  }

  lemma {:induction false} MembersLeaveOne(s: seq<byte>, i: nat, f: Flags, stack: seq<Value>, before: seq<Member>,
                                           count: nat, copy: bool)
    returns (members: seq<Member>)
    requires i <= |s| && ParseMembers(s, i, f, count).Done? && |before| == count && TypedMembers(before)
    ensures TypedMembers(members)
    ensures Build(OpenObject(stack, before), ParseMembers(s, i, f, count).events, copy) ==
        Some(stack + [Object(members)])
    decreases |s| - i, 2
  {
    hide Build, ParseMember, MoreMembers, OpenObject, Typed;
    var m := MemberLeavesTwo(s, i, f, stack, before, copy);
    var item := ParseMember(s, i, f);
    members := MoreMembersLeaveOne(s, item.next, f, stack, before + [m], count + 1, copy);
    BuildConcat(OpenObject(stack, before), item.events, MoreMembers(s, item.next, f, count + 1).events, copy);
  }

  lemma {:induction false} MoreMembersLeaveOne(s: seq<byte>, i: nat, f: Flags, stack: seq<Value>,
                                               before: seq<Member>, count: nat, copy: bool)
    returns (members: seq<Member>)
    requires i <= |s| && MoreMembers(s, i, f, count).Done? && |before| == count && TypedMembers(before)
    ensures TypedMembers(members)
    ensures Build(OpenObject(stack, before), MoreMembers(s, i, f, count).events, copy) ==
        Some(stack + [Object(members)])
    decreases |s| - i, 2
  {
    hide Build, ParseMembers, OpenObject, Typed;
    ClosesObject(stack, before, copy);
    var j := if Peek(s, i) == COMMA then SkipSpace(s, i + 1) else i;
    if j > i && !(f.trailingCommas && Peek(s, j) == RIGHT_CURLY) {
      members := MembersLeaveOne(s, j, f, stack, before, count, copy);
    } else {
      members := before;
    }
  }

  lemma {:induction false} ArrayLeavesOne(s: seq<byte>, i: nat, f: Flags, stack: seq<Value>, copy: bool)
    returns (v: Value)
    requires i <= |s| && ParseValue(s, i, f).Done? && Peek(s, i) == LEFT_BRACKET
    ensures Typed(v) && Build(stack, ParseValue(s, i, f).events, copy) == Some(stack + [v])
    decreases |s| - i, 0
  {
    hide Build, ParseMembers, ParseElements;
    var j := SkipSpace(s, i + 1);
    BuildOne(stack, StartArray, copy);
    if Peek(s, j) == RIGHT_BRACKET {
      v := Array([]);
      BuildOne(stack + [v], EndArray(0), copy);
      assert (stack + [v])[..|stack|] == stack && (stack + [v])[|stack| + 1..] == [];
      assert [StartArray, EndArray(0)] == [StartArray] + [EndArray(0)];
      BuildConcat(stack, [StartArray], [EndArray(0)], copy);
    } else {
      var elements := ElementsLeaveOne(s, j, f, stack, [], 0, copy);
      v := Array(elements);
      BuildConcat(stack, [StartArray], ParseElements(s, j, f, 0).events, copy);
      assert stack + [Array([])] + [] == stack + [Array([])];
    }
  }

  ghost predicate TypedElements(elements: seq<Value>) {
    forall e | e in elements :: Typed(e)
  }

  /** The stack inside an array of which `elements` have been read. */
  function OpenArray(stack: seq<Value>, elements: seq<Value>): seq<Value> {
    stack + [Array([])] + elements
  }

  lemma ClosesArray(stack: seq<Value>, elements: seq<Value>, copy: bool)
    ensures Build(OpenArray(stack, elements), [EndArray(|elements|)], copy) == Some(stack + [Array(elements)])
  {
    hide Build;
    var full := OpenArray(stack, elements);
    BuildOne(full, EndArray(|elements|), copy);
    assert full[..|stack|] == stack && full[|stack| + 1..] == elements;
  }

  lemma {:induction false} ElementsLeaveOne(s: seq<byte>, i: nat, f: Flags, stack: seq<Value>, before: seq<Value>,
                                            count: nat, copy: bool)
    returns (elements: seq<Value>)
    requires i <= |s| && ParseElements(s, i, f, count).Done? && |before| == count && TypedElements(before)
    ensures TypedElements(elements)
    ensures Build(OpenArray(stack, before), ParseElements(s, i, f, count).events, copy) ==
        Some(stack + [Array(elements)])
    decreases |s| - i, 2
  {
    hide Build, ParseValue, MoreElements, Typed;
    var v := ValueLeavesOne(s, i, f, OpenArray(stack, before), copy);
    assert OpenArray(stack, before) + [v] == OpenArray(stack, before + [v]);
    var item := ParseValue(s, i, f);
    var k := SkipSpace(s, item.next);
    elements := MoreElementsLeaveOne(s, k, f, stack, before + [v], count + 1, copy);
    BuildConcat(OpenArray(stack, before), item.events, MoreElements(s, k, f, count + 1).events, copy);
  }

  lemma {:induction false} MoreElementsLeaveOne(s: seq<byte>, i: nat, f: Flags, stack: seq<Value>,
                                                before: seq<Value>, count: nat, copy: bool)
    returns (elements: seq<Value>)
    requires i <= |s| && MoreElements(s, i, f, count).Done? && |before| == count && TypedElements(before)
    ensures TypedElements(elements)
    ensures Build(OpenArray(stack, before), MoreElements(s, i, f, count).events, copy) ==
        Some(stack + [Array(elements)])
    decreases |s| - i, 2
  {
    hide Build, ParseElements, OpenArray, Typed;
    ClosesArray(stack, before, copy);
    var j := if Peek(s, i) == COMMA then SkipSpace(s, i + 1) else i;
    if j > i && !(f.trailingCommas && Peek(s, j) == RIGHT_BRACKET) {
      elements := ElementsLeaveOne(s, j, f, stack, before, count, copy);
    } else {
      elements := before;
    }
  }

  /**
   * A successful parse leaves exactly one value on the handler's stack, whichever parser ran and
   * whether strings are copied, and replaying that value's own traversal rebuilds it.
   */
  lemma ParseLeavesOne(s: seq<byte>, f: Flags, copy: bool) returns (v: Value)
    requires Parse(s, f).Accepted?
    ensures Build([], Parse(s, f).events, copy) == Some([v])
    ensures IterativeParse(s, f) == Parse(s, f)
    ensures Replay([], Accept(v)) == Some([v])
  {
    hide ParseValue, Build, Typed, IterativeParse, Accept, Replay;
    var i := SkipSpace(s, 0);
    v := ValueLeavesOne(s, i, f, [], copy);
    JsonAgreement.ParsersAgree(s, f);
    ReplayAccept([], v);
    assert [] + [v] == [v];
  }

  /* ----- integers ----- */

  /** A number literal without fraction or exponent, its sign and its digits. */
  predicate IsIntegerLiteral(s: seq<byte>, i: nat, negative: bool, a: nat, b: nat)
    requires i <= |s|
  {
    && negative == (Peek(s, i) == MINUS)
    && a == (if negative then i + 1 else i) && a < b
    && IsDigit(Peek(s, a))
    && b == (if Peek(s, a) == ZERO then a + 1 else DigitsEnd(s, a))
    && Peek(s, b) !in {DOT, LETTER_E, CAPITAL_E}
  }

  function Signed(negative: bool, m: nat): int {
    var n: int := m;
    if negative then -n else n
  }

  /**
   * An integer literal of any length reaches the document with its exact value: the flags hold
   * exactly when the value is in their range, and every typed read returns it. Outside the 64-bit
   * ranges it is a double with the exact integer as its significand.
   */
  lemma IntegerLiteralExact(s: seq<byte>, i: nat, f: Flags, negative: bool, a: nat, b: nat)
    requires i <= |s| && IsIntegerLiteral(s, i, negative, a, b)
    ensures var m := Decimal(s, a, b);
            var n := Signed(negative, m);
            if IsInt64(n) || IsUint64(n) then
              && ScanNumber(s, i, f).Lexed? && ScanNumber(s, i, f).next == b
              && Construct(Call(ScanNumber(s, i, f).value, true)).Some?
              && Represents(Construct(Call(ScanNumber(s, i, f).value, true)).value, n)
            else
              b <= |s| && ScanNumber(s, i, f) ==
                if f.overflows(s[i..b]) then Bad(NumberTooBig, i) else Lexed(Double(negative, m, 0), b)
  {
    hide Decimal;
    var m := Decimal(s, a, b);
    var n := Signed(negative, m);
    ConstructorsRepresent(n);
  }

  /* ----- exponents ----- */

  const INT_MAX: int := 0x7FFF_FFFF
  const INT_MIN: int := -0x8000_0000

  /** Every value that `exp * 10 + digit` takes while a positive exponent is read. */
  predicate UpFits(s: seq<byte>, i: nat, e: nat, limit: int)
    requires i <= |s|
    decreases |s| - i
  {
    IsDigit(Peek(s, i)) ==>
      var e' := e * 10 + DigitAt(s, i);
      e' <= INT_MAX && (e' > limit || UpFits(s, i + 1, e', limit))
  }

  predicate DownFits(s: seq<byte>, i: nat, e: nat, limit: int)
    requires i <= |s|
    decreases |s| - i
  {
    IsDigit(Peek(s, i)) ==>
      var e' := e * 10 + DigitAt(s, i);
      e' <= INT_MAX && (e' > limit || DownFits(s, i + 1, e', limit))
  }

  lemma {:induction false} PositiveExponentFits(s: seq<byte>, i: nat, e: nat, limit: int)
    requires i <= |s| && e <= limit && limit * 10 + 9 <= INT_MAX
    ensures UpFits(s, i, e, limit)
    ensures ExponentUp(s, i, e, limit).Some? ==> ExponentUp(s, i, e, limit).value <= limit
    decreases |s| - i
  {
    if IsDigit(Peek(s, i)) && e * 10 + DigitAt(s, i) <= limit {
      PositiveExponentFits(s, i + 1, e * 10 + DigitAt(s, i), limit);
    }
  }

  lemma {:induction false} NegativeExponentFits(s: seq<byte>, i: nat, e: nat, limit: int)
    requires i <= |s| && e <= limit && limit * 10 + 9 <= INT_MAX
    ensures DownFits(s, i, e, limit)
    ensures ExponentDown(s, i, e, limit) <= limit * 10 + 9
    decreases |s| - i
  {
    if IsDigit(Peek(s, i)) && e * 10 + DigitAt(s, i) <= limit {
      NegativeExponentFits(s, i + 1, e * 10 + DigitAt(s, i), limit);
    }
  }

  lemma {:induction false} KeptBound(s: seq<byte>, i: nat, m: nat, significant: nat, kept: nat)
    requires i <= |s|
    ensures KeepFraction(s, i, m, significant, kept).kept <= kept + DigitsEnd(s, i) - i
    decreases |s| - i
  {
    if IsDigit(Peek(s, i)) {
      var m' := m * 10 + DigitAt(s, i);
      KeptBound(s, i + 1, m', if m' != 0 then significant + 1 else significant, kept + 1);
      KeptBound(s, i + 1, m', significant + 1, kept + 1);
    }
  }

  /**
   * With fewer than 2 * 10^8 digits kept after the point, every value that the exponent takes while its digits are read
   * from `j` on, for either sign and also when the number is then rejected, is a 32-bit int.
   */
  lemma ExponentDigitsFit(s: seq<byte>, j: nat, kept: nat)
    requires j <= |s| && kept < 200_000_000 && IsDigit(Peek(s, j))
    ensures UpFits(s, j + 1, DigitAt(s, j), 308 + kept)
    ensures DownFits(s, j + 1, DigitAt(s, j), (2147483639 - kept) / 10)
  {
    PositiveExponentFits(s, j + 1, DigitAt(s, j), 308 + kept);
    NegativeExponentFits(s, j + 1, DigitAt(s, j), (2147483639 - kept) / 10);
  }

  /** And the sum of the written and the fraction's exponent is a 32-bit int of at most 308. */
  lemma ExponentSumFits(s: seq<byte>, i: nat, start: nat, kept: nat)
    requires i <= |s| && kept < 200_000_000
    requires ScanExponent(s, i, kept, start).Lexed?
    ensures var r := ScanExponent(s, i, kept, start);
            INT_MIN <= (if r.value.Some? then r.value.value else 0) - kept <= 308
  {
    hide ExponentUp, ExponentDown;
    if Peek(s, i) == LETTER_E || Peek(s, i) == CAPITAL_E {
      var signed := Peek(s, i + 1) == PLUS || Peek(s, i + 1) == MINUS;
      var j := if signed then i + 2 else i + 1;
      if Peek(s, i + 1) == MINUS {
        NegativeExponentFits(s, j + 1, DigitAt(s, j), (2147483639 - kept) / 10);
      } else {
        PositiveExponentFits(s, j + 1, DigitAt(s, j), 308 + kept);
      }
    }
  }

  lemma RestExponentFits(s: seq<byte>, i: nat, negative: bool, n: nat, digits: nat, b: nat, f: Flags)
    requires i < b <= |s| && digits > 0
    requires var r := ScanRest(s, i, negative, n, digits, b, f);
             r.Lexed? && r.value.Double? && r.next - i < 200_000_000
    ensures INT_MIN <= ScanRest(s, i, negative, n, digits, b, f).value.exponent <= 308
  {
    hide KeepFraction, ScanExponent, IntegerEvent;
    var fraction := ScanFraction(s, b, negative, n, digits);
    if fraction.value.Some? {
      KeptBound(s, b + 1, n, digits - 1, 0);
      ExponentSumFits(s, fraction.next, i, fraction.value.value.kept);
    } else {
      ExponentSumFits(s, fraction.next, i, 0);
    }
    NoDoubleInteger(negative, n);
  }

  lemma NoDoubleInteger(negative: bool, n: nat)
    ensures IntegerEvent(negative, n).Some? ==> !IntegerEvent(negative, n).value.Double?
  {
  }

  /** Every double that the reader delivers for a number under 2 * 10^8 characters has such an exponent. */
  lemma DoubleExponentFits(s: seq<byte>, i: nat, f: Flags)
    requires i <= |s| && ScanNumber(s, i, f).Lexed? && ScanNumber(s, i, f).value.Double?
    requires ScanNumber(s, i, f).next - i < 200_000_000
    ensures INT_MIN <= ScanNumber(s, i, f).value.exponent <= 308
  {
    hide ScanRest, Decimal;
    var negative := Peek(s, i) == MINUS;
    var a := if negative then i + 1 else i;
    var b := if Peek(s, a) == ZERO then a + 1 else DigitsEnd(s, a);
    RestExponentFits(s, i, negative, Decimal(s, a, b), b - a, b, f);
  }
}
