/** Resolving a JSON Pointer in a tree, and creating and setting the value it names. */
module JsonPointerTree {
  import opened Bytes
  import opened JsonPointer
  import opened JsonDocument

  predicate Named(m: Member, name: seq<byte>) {
    m.name.Text? && m.name.chars == name
  }

  /** The first member of that name from `i` on, or the number of members. */
  function Find(members: seq<Member>, name: seq<byte>, i: nat): (k: nat)
    requires i <= |members|
    ensures i <= k <= |members| && (k < |members| ==> Named(members[k], name))
    ensures forall j :: i <= j < k ==> !Named(members[j], name)
    decreases |members| - i
  {
    if i == |members| || Named(members[i], name) then i else Find(members, name, i + 1)
  }

  /** The value a token leads to. */
  function Child(v: Value, t: Token): Option<Value> {
    match v
    case Object(members) =>
      var k := Find(members, t.name, 0);
      if k == |members| then None else Some(members[k].value)
    case Array(elements) =>
      if t.index == INVALID_INDEX || t.index >= |elements| then None else Some(elements[t.index])
    case _ => None
  }

  function Resolve(v: Value, tokens: seq<Token>): Option<Value>
    decreases |tokens|
  {
    if tokens == [] then Some(v)
    else
      match Child(v, tokens[0])
      case None => None
      case Some(c) => Resolve(c, tokens[1..])
  }

  /** How many tokens resolve. */
  function Resolved(v: Value, tokens: seq<Token>): nat
    decreases |tokens|
  {
    if tokens == [] || Child(v, tokens[0]).None? then 0
    else 1 + Resolved(Child(v, tokens[0]).value, tokens[1..])
  }

  /** The value a pointer names, or the index of the first token that leads nowhere. */
  method Get(root: Value, tokens: seq<Token>) returns (r: Option<Value>, unresolvedTokenIndex: nat)
    ensures r == Resolve(root, tokens)
    ensures r == None ==> unresolvedTokenIndex == Resolved(root, tokens) < |tokens|
  {
    var v := root;
    for t := 0 to |tokens|
      invariant Resolve(root, tokens) == Resolve(v, tokens[t..])
      invariant Resolved(root, tokens) == t + Resolved(v, tokens[t..])
    {
      assert tokens[t..][1..] == tokens[t + 1..];
      match Child(v, tokens[t]) {
        case None => return None, t;
        case Some(c) => v := c;
      }
    }
    return Some(v), 0;
  }

  /* ----- creating ----- */

  /** A dash at an array asks for a new element at the end. */
  predicate Appends(v: Value, t: Token) {
    v.Array? && t.name == [MINUS]
  }

  /** What the value becomes to have a child of that name or index. */
  function Container(v: Value, t: Token): (u: Value)
    ensures u.Object? || (u.Array? && t.index != INVALID_INDEX)
  {
    if t.index == INVALID_INDEX then
      if v.Object? then v else Object([])
    else
      if v.Array? || v.Object? then v else Array([])
  }

  function Nulls(n: nat): (s: seq<Value>)
    ensures |s| == n
  {
    seq(n, _ => NullValue)
  }

  /** The container with a child put under the token; an array is filled up to it with nulls. */
  function Plant(u: Value, t: Token, child: Value): Value
    requires u.Object? || u.Array?
  {
    match u
    case Array(elements) =>
      var filled := if t.index >= |elements| then elements + Nulls(t.index + 1 - |elements|) else elements;
      Array(filled[t.index := child])
    case Object(members) =>
      var k := Find(members, t.name, 0);
      if k == |members| then Object(members + [Member(MakeText(t.name, true), child)])
      else Object(members[k := members[k].(value := child)])
  }

  /** The tree afterwards, and whether the value was there before. */
  datatype Created = Created(tree: Value, existed: bool)

  function OrNull(v: Option<Value>): Value { if v.Some? then v.value else NullValue }

  /** Creates the value a pointer names, and puts `leaf` there if there is one to put. */
  function Create(v: Value, tokens: seq<Token>, leaf: Option<Value>): Created
    decreases |tokens|
  {
    if tokens == [] then Created(if leaf.Some? then leaf.value else v, true)
    else if Appends(v, tokens[0]) then
      Created(Array(v.elements + [Create(NullValue, tokens[1..], leaf).tree]), false)
    else
      var u := Container(v, tokens[0]);
      var present := Child(u, tokens[0]);
      var c := Create(OrNull(present), tokens[1..], leaf);
      Created(Plant(u, tokens[0], c.tree), present.Some? && c.existed)
  }

  function Set(v: Value, tokens: seq<Token>, w: Value): Value { Create(v, tokens, Some(w)).tree }

  /* ----- one level ----- */

  lemma FindIs(members: seq<Member>, name: seq<byte>, k: nat)
    requires k <= |members| && (k < |members| ==> Named(members[k], name))
    requires forall j :: 0 <= j < k ==> !Named(members[j], name)
    ensures Find(members, name, 0) == k
  {
  }

  lemma PlantedChild(u: Value, t: Token, child: Value)
    requires u.Object? || (u.Array? && t.index != INVALID_INDEX)
    ensures Child(Plant(u, t, child), t) == Some(child)
  {
    if u.Object? {
      FindIs(Plant(u, t, child).members, t.name, Find(u.members, t.name, 0));
    }
  }

  lemma PlantedSame(u: Value, t: Token)
    requires Child(u, t).Some?
    ensures Plant(u, t, Child(u, t).value) == u
  {
  }

  /** In an array the other elements stay, and the gap up to a new one is filled with nulls. */
  lemma PlantedArray(elements: seq<Value>, t: Token, child: Value, k: nat)
    requires t.index != INVALID_INDEX
    ensures var filled := Plant(Array(elements), t, child);
            && filled.Array? && |filled.elements| == (if t.index < |elements| then |elements| else t.index + 1)
            && (k < |filled.elements| ==>
                  filled.elements[k] ==
                    if k == t.index then child else if k < |elements| then elements[k] else NullValue)
  {
  }

  /** In an object the other members stay where they are, and a new one comes last. */
  lemma PlantedObject(members: seq<Member>, t: Token, child: Value, k: nat)
    ensures var planted := Plant(Object(members), t, child); var i := Find(members, t.name, 0);
            && planted.Object? && |planted.members| == (if i < |members| then |members| else |members| + 1)
            && (k < |members| && k != i ==> planted.members[k] == members[k])
            && Named(planted.members[i], t.name) && planted.members[i].value == child
  {
  }

  /** What is no container becomes an array for a numeric token, and an object for any other. */
  lemma NewContainer(v: Value, t: Token, w: Value)
    requires !v.Object? && !v.Array?
    ensures Set(v, [t], w) == if t.index != INVALID_INDEX then Array(Nulls(t.index) + [w])
                              else Object([Member(MakeText(t.name, true), w)])
  {
    hide Child;
    assert Create(OrNull(Child(Container(v, t), t)), [t][1..], Some(w)).tree == w;
    if t.index != INVALID_INDEX {
      assert [] + Nulls(t.index + 1) == Nulls(t.index + 1);
      assert Nulls(t.index + 1)[t.index := w] == Nulls(t.index) + [w];
      assert Plant(Array([]), t, w) == Array(Nulls(t.index) + [w]);
    }
  }

  /** The tokens lead to different places of any value. */
  predicate Distinct(s: Token, t: Token) {
    s.name != t.name && (s.index == t.index ==> s.index == INVALID_INDEX)
  }

  /** The tokens lead to the same place of a value: the same name in an object, the same index in any other. */
  predicate SamePlace(v: Value, s: Token, t: Token) {
    if v.Object? then s.name == t.name else s.index == t.index
  }

  lemma DistinctPlaces(v: Value, s: Token, t: Token)
    requires Distinct(s, t) && Child(v, t).Some?
    ensures !SamePlace(v, s, t)
  {
  }

  lemma PlantedOther(u: Value, t: Token, child: Value, other: Token)
    requires u.Object? || (u.Array? && t.index != INVALID_INDEX)
    requires !SamePlace(u, t, other) && Child(u, other).Some?
    ensures Child(Plant(u, t, child), other) == Child(u, other)
  {
    if u.Object? {
      FindIs(Plant(u, t, child).members, other.name, Find(u.members, other.name, 0));
    }
  }

  /* ----- whole paths ----- */

  /** A dash is no index, as in every parsed pointer. */
  predicate DashesHaveNoIndex(tokens: seq<Token>) {
    forall k | 0 <= k < |tokens| :: tokens[k].name == [MINUS] ==> tokens[k].index == INVALID_INDEX
  }

  lemma {:induction false} ParsedDashes(names: seq<seq<byte>>)
    ensures DashesHaveNoIndex(MakeTokens(names))
  {
    if names != [] {
      ParsedDashes(names[1..]);
      var rest := MakeTokens(names[1..]);
      forall k | 0 <= k < 1 + |rest| && MakeTokens(names)[k].name == [MINUS]
        ensures MakeTokens(names)[k].index == INVALID_INDEX
      {
        if k > 0 {
          assert MakeTokens(names)[k] == rest[k - 1];
        }
      }
    }
  }

  /** Create reports that the value existed exactly when the pointer resolves, and then changes nothing. */
  lemma {:induction false} CreateExisting(v: Value, tokens: seq<Token>, leaf: Option<Value>)
    requires DashesHaveNoIndex(tokens)
    ensures Create(v, tokens, leaf).existed <==> Resolve(v, tokens).Some?
    ensures Resolve(v, tokens).Some? ==> Create(v, tokens, None).tree == v
    decreases |tokens|
  {
    hide Plant, Find;
    if tokens != [] && !Appends(v, tokens[0]) {
      var u := Container(v, tokens[0]);
      CreateExisting(OrNull(Child(u, tokens[0])), tokens[1..], leaf);
      CreateExisting(OrNull(Child(u, tokens[0])), tokens[1..], None);
      EmptyHasNoChild(tokens[0]);
      if Child(v, tokens[0]).Some? {
        PlantedSame(v, tokens[0]);
      }
    }
  }

  lemma EmptyHasNoChild(t: Token)
    ensures Child(Object([]), t) == None && Child(Array([]), t) == None
  {
  }

  /** On the way down a dash meets an array. */
  predicate DashMeetsArray(v: Value, tokens: seq<Token>)
    decreases |tokens|
  {
    tokens != [] &&
    (Appends(v, tokens[0]) || DashMeetsArray(OrNull(Child(Container(v, tokens[0]), tokens[0])), tokens[1..]))
  }

  /** What was set is what is found, unless a dash met an array: then nothing is found. */
  lemma {:induction false} GetAfterSet(v: Value, tokens: seq<Token>, w: Value)
    requires DashesHaveNoIndex(tokens)
    ensures Resolve(Set(v, tokens, w), tokens) == if DashMeetsArray(v, tokens) then None else Some(w)
    decreases |tokens|
  {
    hide Plant, Find;
    if tokens != [] && !Appends(v, tokens[0]) {
      var u := Container(v, tokens[0]);
      var below := OrNull(Child(u, tokens[0]));
      GetAfterSet(below, tokens[1..], w);
      PlantedChild(u, tokens[0], Set(below, tokens[1..], w));
    }
  }

  /** Somewhere on their way down from the value the paths part, each for a place of its own. */
  predicate Diverging(v: Value, p: seq<Token>, q: seq<Token>)
    decreases |p|
  {
    p != [] && q != [] && Child(v, q[0]).Some? &&
    (SamePlace(v, p[0], q[0]) ==> Diverging(Child(v, q[0]).value, p[1..], q[1..]))
  }

  /** Where the paths part, the first makes an array into an object, and the second had a name of its own. */
  predicate ArrayLost(v: Value, p: seq<Token>, q: seq<Token>)
    requires Diverging(v, p, q)
    decreases |p|
  {
    if SamePlace(v, p[0], q[0]) then ArrayLost(Child(v, q[0]).value, p[1..], q[1..])
    else v.Array? && p[0].index == INVALID_INDEX && p[0].name != [MINUS]
  }

  /** No name on the first path is the name where the second one parts from it, unless the place is the same. */
  predicate NamesPart(v: Value, p: seq<Token>, q: seq<Token>)
    requires Diverging(v, p, q)
    decreases |p|
  {
    if SamePlace(v, p[0], q[0]) then NamesPart(Child(v, q[0]).value, p[1..], q[1..]) else p[0].name != q[0].name
  }

  predicate Parsed(tokens: seq<Token>) {
    forall k | 0 <= k < |tokens| :: tokens[k] == MakeToken(tokens[k].name)
  }

  /** Parsed tokens in different places have different names. */
  lemma {:induction false} ParsedNamesPart(v: Value, p: seq<Token>, q: seq<Token>)
    requires Parsed(p) && Parsed(q) && Diverging(v, p, q)
    ensures NamesPart(v, p, q)
    decreases |p|
  {
    hide Child, IndexOf;
    if SamePlace(v, p[0], q[0]) {
      ParsedNamesPart(Child(v, q[0]).value, p[1..], q[1..]);
    }
  }

  /** Setting one path leaves what another one names, exactly when it does not make their parting array an object. */
  lemma {:induction false} SetKeepsOthers(v: Value, p: seq<Token>, q: seq<Token>, w: Value)
    requires DashesHaveNoIndex(p) && DashesHaveNoIndex(q) && Resolve(v, q).Some?
    requires Diverging(v, p, q) && NamesPart(v, p, q)
    ensures Resolve(Set(v, p, w), q) == if ArrayLost(v, p, q) then None else Resolve(v, q)
    decreases |p|
  {
    hide Plant, Find;
    var below := Create(OrNull(Child(Container(v, p[0]), p[0])), p[1..], Some(w)).tree;
    if SamePlace(v, p[0], q[0]) {
      SameChild(v, p[0], q[0]);
      SetKeepsOthers(Child(v, q[0]).value, p[1..], q[1..], w);
      PlantedChild(v, p[0], below);
      PlantedKind(v, p[0], below);
      SameChild(Plant(v, p[0], below), p[0], q[0]);
    } else if ArrayLost(v, p, q) {
      PlantedAlone(p[0], below, q[0]);
    } else if !Appends(v, p[0]) {
      PlantedOther(v, p[0], below, q[0]);
    }
  }

  lemma PlantedKind(v: Value, t: Token, child: Value)
    requires v.Object? || v.Array?
    ensures Plant(v, t, child).Object? == v.Object?
  {
  }

  /** Tokens of the same index are one place of an array, so setting the one sets the other. */
  lemma SharedIndex(elements: seq<Value>, s: Token, t: Token, w: Value)
    requires s.index == t.index != INVALID_INDEX && s.name != [MINUS]
    ensures Resolve(Set(Array(elements), [s], w), [t]) == Some(w)
  {
    hide Plant;
    var v := Array(elements);
    assert Create(OrNull(Child(v, s)), [s][1..], Some(w)).tree == w;
    assert Resolve(w, [t][1..]) == Some(w);
    PlantedChild(v, s, w);
    PlantedKind(v, s, w);
    SameChild(Plant(v, s, w), s, t);
  }

  /** Setting by a dash appends to the empty array, where the dash finds nothing. */
  lemma DashNotFound(w: Value)
    ensures var p := [MakeToken([MINUS])];
            DashMeetsArray(Array([]), p) && Set(Array([]), p, w) == Array([w]) && Resolve(Array([w]), p) == None
  {
    var p := [MakeToken([MINUS])];
    assert !IsDigit([MINUS][0]);
    assert Create(NullValue, p[1..], Some(w)).tree == w;
    assert [] + [w] == [w];
  }

  /** Setting by a name makes an object of the array, and its element is gone. */
  lemma ElementGone(w: Value)
    ensures var p, q := [MakeToken([LETTER_A])], [MakeToken([ZERO])];
            && Resolve(Array([NullValue]), q) == Some(NullValue)
            && Diverging(Array([NullValue]), p, q) && ArrayLost(Array([NullValue]), p, q)
            && Resolve(Set(Array([NullValue]), p, w), q) == None
  {
    hide Plant, Find;
    var v, p, q := Array([NullValue]), [MakeToken([LETTER_A])], [MakeToken([ZERO])];
    LetterAndZero();
    assert q[1..] == [];
    SetKeepsOthers(v, p, q, w);
  }

  lemma LetterAndZero()
    ensures MakeToken([LETTER_A]) == Token([LETTER_A], INVALID_INDEX) && MakeToken([ZERO]) == Token([ZERO], 0)
  {
    assert !IsDigit([LETTER_A][0]);
    assert IndexFrom([ZERO], 1, 0) == 0;
    assert IndexFrom([ZERO], 0, 0) == 0;
  }

  /** In the same place the same child is found. */
  lemma SameChild(v: Value, s: Token, t: Token)
    requires SamePlace(v, s, t)
    ensures Child(v, s) == Child(v, t)
  {
  }

  lemma PlantedAlone(t: Token, child: Value, other: Token)
    requires t.name != other.name
    ensures Child(Plant(Object([]), t, child), other) == None
  {
    FindIs(Plant(Object([]), t, child).members, other.name, 1);
  }

  /** Different names make distinct tokens, unless one of them writes a number beyond 32 bits. */
  lemma NamesDistinct(a: seq<byte>, b: seq<byte>)
    requires NoLongNumber(a) && NoLongNumber(b) && a != b
    ensures Distinct(MakeToken(a), MakeToken(b))
  {
    if IndexOf(a) == IndexOf(b) && IndexOf(a) != INVALID_INDEX {
      IndexOneToOne(a, b);
    }
  }

  /** In particular when numeric names have at most nine digits, and other names any length. */
  lemma ShortNamesDistinct(a: seq<byte>, b: seq<byte>)
    requires (AllDigits(a) ==> |a| <= 9) && (AllDigits(b) ==> |b| <= 9) && a != b
    ensures Distinct(MakeToken(a), MakeToken(b))
  {
    if AllDigits(a) {
      NineDigits(a);
    }
    if AllDigits(b) {
      NineDigits(b);
    }
    NamesDistinct(a, b);
  }

  /* ----- the tree in place ----- */

  /** A place on the way down: a new last element, or the child of a container. */
  datatype Hole = NewLast(elements: seq<Value>) | ChildOf(container: Value, token: Token)

  predicate Fillable(path: seq<Hole>) {
    forall k | 0 <= k < |path| && path[k].ChildOf? :: path[k].container.Object? || path[k].container.Array?
  }

  function Fill(hole: Hole, v: Value): Value
    requires hole.ChildOf? ==> hole.container.Object? || hole.container.Array?
  {
    match hole
    case NewLast(elements) => Array(elements + [v])
    case ChildOf(container, token) => Plant(container, token, v)
  }

  /** The whole tree when `v` stands at the end of the path. */
  function Rebuilt(path: seq<Hole>, v: Value): Value
    requires Fillable(path)
  {
    if path == [] then v else Rebuilt(path[..|path| - 1], Fill(path[|path| - 1], v))
  }

  lemma RebuiltMore(path: seq<Hole>, hole: Hole, v: Value)
    requires Fillable(path) && Fillable(path + [hole])
    requires hole.ChildOf? ==> hole.container.Object? || hole.container.Array?
    ensures Rebuilt(path + [hole], v) == Rebuilt(path, Fill(hole, v))
  {
    assert (path + [hole])[..|path|] == path;
  }

  class Tree {
    var root: Value

    constructor (root: Value)
      ensures this.root == root
    {
      this.root := root;
    }

    /**
     * Goes down the tokens, making containers and children where there are none; the path keeps the
     * place that the source's reference points to. With a leaf this is a set.
     */
    method CreateValue(tokens: seq<Token>, leaf: Option<Value>) returns (alreadyExist: bool)
      modifies this
      ensures var c := Create(old(root), tokens, leaf); root == c.tree && alreadyExist == c.existed
    {
      hide Plant, Find, Child, Container;
      var v, exist, path: seq<Hole> := root, true, [];
      for t := 0 to |tokens|
        invariant Fillable(path)
        invariant var whole := Create(root, tokens, leaf);
                  var rest := Create(v, tokens[t..], leaf);
                  whole == Created(Rebuilt(path, rest.tree), exist && rest.existed)
        invariant root == old(root)
      {
        assert tokens[t..][0] == tokens[t] && tokens[t..][1..] == tokens[t + 1..];
        var token := tokens[t];
        var hole;
        ghost var rest;
        if Appends(v, token) {
          hole := NewLast(v.elements);
          v, exist := NullValue, false;
        } else {
          var u := Container(v, token);
          IsContainer(v, token);
          var below := Child(u, token);
          hole := ChildOf(u, token);
          if below.None? {
            exist := false;
          }
          v := OrNull(below);
        }
        rest := Create(v, tokens[t + 1..], leaf);
        RebuiltMore(path, hole, rest.tree);
        path := path + [hole];
      }
      root := Rebuilt(path, if leaf.Some? then leaf.value else v);
      alreadyExist := exist;
    }

    /** Sets the value; it is then found there unless a dash met an array. */
    method SetValue(tokens: seq<Token>, value: Value)
      requires DashesHaveNoIndex(tokens)
      modifies this
      ensures root == Set(old(root), tokens, value)
      ensures Resolve(root, tokens) == if DashMeetsArray(old(root), tokens) then None else Some(value)
    {
      GetAfterSet(root, tokens, value);
      var exist := CreateValue(tokens, Some(value));
    }
  }

  lemma IsContainer(v: Value, t: Token)
    ensures Container(v, t).Object? || Container(v, t).Array?
  {
  }
}
