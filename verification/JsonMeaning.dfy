/** What a text means: the value that a document holds after parsing it, read off the tree of the text. */
module JsonMeaning {
  import opened Bytes
  import opened JsonText
  import opened JsonDescent
  import opened JsonNumber
  import opened JsonGrammar
  import opened JsonDocument
  import opened JsonDom

  /* ----- the values ----- */

  /** An integer of 64 bits: the types it fits, and its two's complement. */
  function IntegerValue(n: int): Value
    requires -0x8000_0000_0000_0000 <= n <= 0xFFFF_FFFF_FFFF_FFFF
  {
    Value.Number(Fits(-0x8000_0000 <= n <= 0x7FFF_FFFF, 0 <= n <= 0xFFFF_FFFF,
                      n <= 0x7FFF_FFFF_FFFF_FFFF, 0 <= n),
                 if n < 0 then n + 0x1_0000_0000_0000_0000 else n)
  }

  /** Up to 13 bytes of a string lie in the value itself. */
  function TextValue(chars: seq<byte>, copy: bool): Value {
    Text(if !copy then Referenced else if |chars| <= 13 then Inline else Copied, chars)
  }

  function NumberValue(n: JsonNumber.Number): Value
    requires ValidNumber(n)
  {
    if IsInteger(n) then IntegerValue(if n.minus then 0 - JsonNumber.Value(n.digits) else JsonNumber.Value(n.digits))
    else Real(n.minus, Significand(n, Kept(n)), WrittenExponent(n) - Kept(n))
  }

  function WordValue(event: Event): Value {
    if event == Null then NullValue else BoolValue(event == Bool(true))
  }

  function Meaning(t: Tree, f: Flags, copy: bool): Value
    requires ValidTree(t, f)
    decreases t, 0
  {
    match t
    case Word(event) => WordValue(event)
    case NumberTree(n) => NumberValue(n)
    case TextTree(pieces) => TextValue(StringValue(pieces), copy)
    case ArrayTree(elements, _) => Array(ElementValues(elements, f, copy))
    case ObjectTree(members, _) => Object(MemberValues(members, f, copy))
  }

  function ElementValue(e: Element, f: Flags, copy: bool): Value
    requires ValidElement(e, f)
    decreases e, 0
  {
    Meaning(e.value, f, copy)
  }

  function ElementValues(es: seq<Element>, f: Flags, copy: bool): seq<Value>
    requires ValidElements(es, f)
    decreases es, 0
  {
    if es == [] then [] else [ElementValue(es[0], f, copy)] + ElementValues(es[1..], f, copy)
  }

  function MemberValue(m: Pairing, f: Flags, copy: bool): Member
    requires ValidMember(m, f)
    decreases m, 0
  {
    Member(TextValue(StringValue(m.name), copy), ElementValue(m.value, f, copy))
  }

  function MemberValues(ms: seq<Pairing>, f: Flags, copy: bool): seq<Member>
    requires ValidMembers(ms, f)
    decreases ms, 0
  {
    if ms == [] then [] else [MemberValue(ms[0], f, copy)] + MemberValues(ms[1..], f, copy)
  }

  /* ----- the events of a tree build them ----- */

  lemma NumberBuilds(n: JsonNumber.Number, copy: bool)
    requires ValidNumber(n)
    ensures Construct(Call(NumberMeaning(n), copy)) == Some(NumberValue(n))
    ensures !NumberMeaning(n).EndObject? && !NumberMeaning(n).EndArray?
  {
    hide ValidNumber, JsonNumber.Value, Significand, Kept, WrittenExponent;
  }

  lemma ScalarBuilds(t: Tree, f: Flags, stack: seq<Value>, copy: bool)
    requires ValidTree(t, f) && !t.ArrayTree? && !t.ObjectTree?
    ensures Build(stack, Events(t, f), copy) == Some(stack + [Meaning(t, f, copy)])
  {
    hide Build, ValidNumber, NumberMeaning, NumberValue, StringValue, TooBig;
    if t.NumberTree? {
      NumberBuilds(t.number, copy);
    }
    BuildOne(stack, Events(t, f)[0], copy);
  }

  /** The events of a tree push its value. */
  lemma {:induction false} TreeBuilds(t: Tree, f: Flags, stack: seq<Value>, copy: bool)
    requires ValidTree(t, f)
    ensures Build(stack, Events(t, f), copy) == Some(stack + [Meaning(t, f, copy)])
    decreases t, 3
  {
    match t
    case ArrayTree(elements, _) => ArrayBuilds(t, f, stack, copy);
    case ObjectTree(members, _) => ObjectBuilds(t, f, stack, copy);
    case _ => ScalarBuilds(t, f, stack, copy);
  }

  lemma {:induction false} ArrayBuilds(t: Tree, f: Flags, stack: seq<Value>, copy: bool)
    requires t.ArrayTree? && ValidTree(t, f)
    ensures Build(stack, Events(t, f), copy) == Some(stack + [Meaning(t, f, copy)])
    decreases t, 2
  {
    hide Build, ValidElements, ElementEvents, ElementValues;
    var values := ElementValues(t.elements, f, copy);
    BuildOne(stack, StartArray, copy);
    ElementsBuild(t.elements, f, stack + [Array([])], copy);
    ElementsCount(t.elements, f, copy);
    ClosesArray(stack, values, copy);
    BuildConcat(stack, [StartArray], ElementEvents(t.elements, f), copy);
    BuildConcat(stack, [StartArray] + ElementEvents(t.elements, f), [EndArray(|t.elements|)], copy);
  }

  lemma {:induction false} ElementsCount(es: seq<Element>, f: Flags, copy: bool)
    requires ValidElements(es, f)
    ensures |ElementValues(es, f, copy)| == |es|
    decreases es
  {
    if es != [] {
      ElementsCount(es[1..], f, copy);
    }
  }

  lemma {:induction false} ElementsBuild(es: seq<Element>, f: Flags, stack: seq<Value>, copy: bool)
    requires ValidElements(es, f)
    ensures Build(stack, ElementEvents(es, f), copy) == Some(stack + ElementValues(es, f, copy))
    decreases es, 1
  {
    hide ValidElement, ElementEvent, ElementValue;
    if es == [] {
      assert stack + [] == stack;
    } else {
      hide Build;
      var first := stack + [ElementValue(es[0], f, copy)];
      ElementBuilds(es[0], f, stack, copy);
      ElementsBuild(es[1..], f, first, copy);
      BuildConcat(stack, ElementEvent(es[0], f), ElementEvents(es[1..], f), copy);
      assert first + ElementValues(es[1..], f, copy) == stack + ElementValues(es, f, copy);
    }
  }

  lemma {:induction false} ElementBuilds(e: Element, f: Flags, stack: seq<Value>, copy: bool)
    requires ValidElement(e, f)
    ensures Build(stack, ElementEvent(e, f), copy) == Some(stack + [ElementValue(e, f, copy)])
    decreases e, 4
  {
    hide Build, ValidTree, Events, Meaning;
    TreeBuilds(e.value, f, stack, copy);
  }

  lemma {:induction false} ObjectBuilds(t: Tree, f: Flags, stack: seq<Value>, copy: bool)
    requires t.ObjectTree? && ValidTree(t, f)
    ensures Build(stack, Events(t, f), copy) == Some(stack + [Meaning(t, f, copy)])
    decreases t, 2
  {
    hide Build, ValidMembers, MemberEvents, MemberValues, Flatten;
    var members := MemberValues(t.members, f, copy);
    BuildOne(stack, StartObject, copy);
    MembersBuild(t.members, f, stack + [Object([])], copy);
    MembersCount(t.members, f, copy);
    ClosesObject(stack, members, copy);
    BuildConcat(stack, [StartObject], MemberEvents(t.members, f), copy);
    BuildConcat(stack, [StartObject] + MemberEvents(t.members, f), [EndObject(|t.members|)], copy);
  }

  lemma {:induction false} MembersCount(ms: seq<Pairing>, f: Flags, copy: bool)
    requires ValidMembers(ms, f)
    ensures |MemberValues(ms, f, copy)| == |ms|
    decreases ms
  {
    if ms != [] {
      MembersCount(ms[1..], f, copy);
    }
  }

  lemma {:induction false} MembersBuild(ms: seq<Pairing>, f: Flags, stack: seq<Value>, copy: bool)
    requires ValidMembers(ms, f)
    ensures Build(stack, MemberEvents(ms, f), copy) == Some(stack + Flatten(MemberValues(ms, f, copy)))
    decreases ms, 1
  {
    hide ValidMember, MemberEvent, MemberValue;
    if ms == [] {
      assert stack + [] == stack;
    } else {
      hide Build;
      var m := MemberValue(ms[0], f, copy);
      var first := stack + [m.name, m.value];
      MemberBuilds(ms[0], f, stack, copy);
      MembersBuild(ms[1..], f, first, copy);
      BuildConcat(stack, MemberEvent(ms[0], f), MemberEvents(ms[1..], f), copy);
      var members := MemberValues(ms, f, copy);
      assert members[0] == m && members[1..] == MemberValues(ms[1..], f, copy);
      assert first + Flatten(members[1..]) == stack + Flatten(members);
    }
  }

  lemma {:induction false} MemberBuilds(m: Pairing, f: Flags, stack: seq<Value>, copy: bool)
    requires ValidMember(m, f)
    ensures var v := MemberValue(m, f, copy);
            Build(stack, MemberEvent(m, f), copy) == Some(stack + [v.name, v.value])
    decreases m, 5
  {
    hide Build, ValidElement, ElementEvent, ElementValue, StringValue;
    var key := Key(StringValue(m.name));
    var v := MemberValue(m, f, copy);
    BuildOne(stack, key, copy);
    ElementBuilds(m.value, f, stack + [v.name], copy);
    BuildConcat(stack, [key], ElementEvent(m.value, f), copy);
    assert stack + [v.name] + [v.value] == stack + [v.name, v.value];
  }

  /**
   * A document that is parsed holds the value of its text: the words, numbers and strings that are
   * written, in arrays and objects of the same shape and order.
   */
  lemma ParsedMeaning(s: seq<byte>, doc: Element, f: Flags, copy: bool)
    requires if f.stopWhenDone then BeginsWith(s, doc, f) else IsDocument(s, doc, f)
    ensures Parse(s, f).Accepted? && Build([], Parse(s, f).events, copy) == Some([Meaning(doc.value, f, copy)])
  {
    hide Build, Parse, ValidTree, Render, Events, Meaning;
    if f.stopWhenDone {
      LanguageOfFirst(s, f);
    } else {
      Language(s, f);
    }
    TreeBuilds(doc.value, f, [], copy);
    assert [] + [Meaning(doc.value, f, copy)] == [Meaning(doc.value, f, copy)];
  }
}
