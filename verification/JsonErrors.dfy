/**
 * What the parsers report for a text that is no document: the error and the byte it is reported at,
 * by what has been read in front of it. By `JsonAgreement` it is the same for both parsers.
 */
module JsonErrors {
  import opened Bytes
  import Utf8
  import opened JsonText
  import opened JsonDescent
  import opened JsonNumber
  import opened JsonGrammar

  /* ----- strings ----- */

  function PiecesText(ps: seq<Piece>): seq<byte> {
    if ps == [] then [] else PieceText(ps[0]) + PiecesText(ps[1..])
  }

  /** Four hexadecimal digits stand at `i`. */
  predicate UnitAt(s: seq<byte>, i: nat) { i + 4 <= |s| && IsHex4(s[i..i + 4]) }

  /** Why the byte at `i`, or the escape that begins there, cannot stand in a string. */
  function StringError(s: seq<byte>, i: nat): Option<ErrorCode> {
    var c, e := Peek(s, i), Peek(s, i + 1);
    if c == 0 then Some(StringMissQuotationMark)
    else if c < 0x20 then Some(StringInvalidEncoding)
    else if c != 0x5C || e in SHORT_ESCAPES then None
    else if e != 0x75 then Some(StringEscapeInvalid)
    else if !UnitAt(s, i + 2) then Some(StringUnicodeEscapeInvalidHex)
    else if !(0xD800 <= Hex4(s[i + 2..i + 6]) <= 0xDBFF) then None
    else if Peek(s, i + 6) != 0x5C || Peek(s, i + 7) != 0x75 then Some(StringUnicodeSurrogateInvalid)
    else if !UnitAt(s, i + 8) then Some(StringUnicodeEscapeInvalidHex)
    else if 0xDC00 <= Hex4(s[i + 8..i + 12]) <= 0xDFFF then None
    else Some(StringUnicodeSurrogateInvalid)
  }

  lemma UnitRead(s: seq<byte>, i: nat)
    requires i <= |s|
    ensures Hex(s, i, 4, 0) == if UnitAt(s, i) then Some(Hex4(s[i..i + 4])) else None
  {
    hide Hex4, IsHex4;
    if i + 4 <= |s| {
      HexAt(s, i, s[i..i + 4]);
    } else if Hex(s, i, 4, 0).Some? {
      HexBound(s, i, 4, 0, 1);
    }
  }

  lemma PairRead(s: seq<byte>, i: nat)
    requires i < |s| && UnitAt(s, i + 2)
    ensures Peek(s, i + 6) == 0x5C && Peek(s, i + 7) == 0x75 ==> i + 8 <= |s|
  {
  }

  /** An escape is refused at its backslash, for this reason. */
  lemma EscapeRefused(s: seq<byte>, i: nat)
    requires i < |s| && s[i] == 0x5C && StringError(s, i).Some?
    ensures ScanEscape(s, i) == Bad(StringError(s, i).value, i)
  {
    hide Hex, Hex4, UnitAt, Unescaped;
    ShortEscape(Peek(s, i + 1));
    if Peek(s, i + 1) == 0x75 {
      UnitRead(s, i + 2);
      if UnitAt(s, i + 2) {
        PairRead(s, i);
        if Peek(s, i + 6) == 0x5C && Peek(s, i + 7) == 0x75 {
          UnitRead(s, i + 8);
        }
      }
    }
  }

  /** Behind whole characters a string is refused at the byte or the escape that cannot stand in it. */
  lemma {:induction false} StringRefused(s: seq<byte>, i: nat, ps: seq<Piece>)
    requires ValidPieces(ps) && i <= |s| && Utf8.At(s, i, PiecesText(ps))
    requires StringError(s, i + |PiecesText(ps)|).Some?
    ensures var j := i + |PiecesText(ps)|; ScanString(s, i) == Bad(StringError(s, j).value, j)
    decreases |ps|
  {
    hide ScanEscape, ValidPiece, PieceValue, PieceText;
    if ps == [] {
      if Peek(s, i) == 0x5C {
        EscapeRefused(s, i);
      }
    } else {
      Utf8.AtSplit(s, i, PieceText(ps[0]), PiecesText(ps[1..]));
      StringRefused(s, i + |PieceText(ps[0])|, ps[1..]);
      if ps[0].Raw? {
        RawReads(ps[0]);
        AtFirst(s, i, PieceText(ps[0]));
      } else {
        EscapeReads(s, i, ps[0]);
      }
    }
  }

  /* ----- words ----- */

  lemma {:induction false} MatchStops(s: seq<byte>, i: nat, word: seq<byte>, k: nat)
    requires k < |word| && 0 !in word && Utf8.At(s, i, word[..k]) && Peek(s, i + k) != word[k]
    ensures Match(s, i, word) == i + k
    decreases k
  {
    if k > 0 {
      AtFirst(s, i, word[..k]);
      assert word[..k] == [word[0]] + word[1..][..k - 1];
      Utf8.AtSplit(s, i, [word[0]], word[1..][..k - 1]);
      MatchStops(s, i + 1, word[1..], k - 1);
    }
  }

  /** A word that is broken off is refused at the first byte that does not belong to it. */
  lemma WordRefused(s: seq<byte>, i: nat, event: Event, k: nat, f: Flags)
    requires IsWord(event) && 0 < k < |WordText(event)|
    requires Utf8.At(s, i, WordText(event)[..k]) && Peek(s, i + k) != WordText(event)[k]
    ensures i <= |s| && ParseValue(s, i, f) == Failed([], ValueInvalid, i + k)
  {
    hide Match;
    var t := WordText(event);
    AtFirst(s, i, t[..k]);
    assert t[..k] == [t[0]] + t[1..][..k - 1];
    Utf8.AtSplit(s, i, [t[0]], t[1..][..k - 1]);
    MatchStops(s, i + 1, t[1..], k - 1);
  }

  /** A byte that begins no value is refused as it stands. */
  lemma NoValue(s: seq<byte>, i: nat, f: Flags)
    requires i <= |s| && Peek(s, i) !in {0x7B, 0x5B, 0x6E, 0x74, 0x66, 0x22, 0x2D} && NoDigit(s, i)
    ensures ParseValue(s, i, f) == Failed([], ValueInvalid, i)
  {
    hide ScanNumber;
    NoNumber(s, i, f);
  }

  /* ----- inside arrays ----- */

  /** Elements with a comma behind each. */
  function Listed(es: seq<Element>): seq<byte> {
    if es == [] then [] else RenderElement(es[0]) + ([0x2C] + Listed(es[1..]))
  }

  /** No closing bracket, or one that the flags do not allow behind a comma. */
  predicate GoesOn(s: seq<byte>, j: nat, bracket: byte, first: bool, f: Flags) {
    Peek(s, j) != bracket || (!first && !f.trailingCommas)
  }

  lemma ElementStep(s: seq<byte>, a: nat, f: Flags, count: nat, events: seq<Event>, c: nat)
    requires a <= |s| && ParseValue(s, a, f).Done? && ParseValue(s, a, f).events == events
    requires SkipSpace(s, ParseValue(s, a, f).next) == c < |s| && s[c] == 0x2C
    requires GoesOn(s, SkipSpace(s, c + 1), 0x5D, false, f)
    ensures ParseElements(s, a, f, count) == Prepend(events, ParseElements(s, SkipSpace(s, c + 1), f, count + 1))
  {
    hide ParseValue, SkipSpace;
    assert MoreElements(s, c, f, count + 1) == ParseElements(s, SkipSpace(s, c + 1), f, count + 1);
  }

  lemma PrependTwice(a: seq<Event>, b: seq<Event>, r: Parsed)
    ensures Prepend(a, Prepend(b, r)) == Prepend(a + b, r) && Prepend([], r) == r
  {
    assert a + (b + r.events) == a + b + r.events && [] + r.events == r.events;
  }

  lemma FirstListed(es: seq<Element>, f: Flags)
    requires es != [] && ValidElements(es, f)
    ensures Listed(es) == RenderElement(es[0]) + ([0x2C] + Listed(es[1..]))
    ensures ValidElement(es[0], f) && ValidElements(es[1..], f)
    ensures ElementEvents(es, f) == ElementEvent(es[0], f) + ElementEvents(es[1..], f)
  {
    hide RenderElement, ElementEvent, ValidElement;
  }

  /** The elements with their commas are read, and parsing goes on behind them. */
  lemma {:induction false} ListedParses(s: seq<byte>, i: nat, es: seq<Element>, f: Flags, count: nat)
    requires ValidElements(es, f) && Utf8.At(s, i, Listed(es)) && i <= |s|
    requires es != [] ==> GoesOn(s, SkipSpace(s, i + |Listed(es)|), 0x5D, false, f)
    ensures ParseElements(s, SkipSpace(s, i), f, count)
         == Prepend(ElementEvents(es, f), ParseElements(s, SkipSpace(s, i + |Listed(es)|), f, count + |es|))
    ensures es != [] ==> Peek(s, SkipSpace(s, i)) != 0x5D
    decreases |es|
  {
    hide ParseValue, ParseElements, SkipSpace;
    if es == [] {
      PrependTwice([], [], ParseElements(s, SkipSpace(s, i), f, count));
    } else {
      ListedStep(s, i, es, f, count);
    }
  }

  lemma {:induction false} ListedStep(s: seq<byte>, i: nat, es: seq<Element>, f: Flags, count: nat)
    requires es != [] && ValidElements(es, f) && Utf8.At(s, i, Listed(es)) && i <= |s|
    requires GoesOn(s, SkipSpace(s, i + |Listed(es)|), 0x5D, false, f)
    ensures ParseElements(s, SkipSpace(s, i), f, count)
         == Prepend(ElementEvents(es, f), ParseElements(s, SkipSpace(s, i + |Listed(es)|), f, count + |es|))
    ensures Peek(s, SkipSpace(s, i)) != 0x5D
    decreases |es|, 0
  {
    hide ParseValue, ParseElements, SkipSpace, ValidElement, RenderElement, ElementEvent, Delimits, StartsValue;
    hide Listed, ElementEvents, ValidElements, Prepend, Utf8.At;
    FirstListed(es, f);
    var e, rest := es[0], Listed(es[1..]);
    var c := i + |RenderElement(e)|;
    RestDelimits([], 0x5D, f);
    assert Delimits(0x2C);
    ElementParses(s, i, e, [0x2C] + rest, f);
    StartIsNone(Peek(s, SkipSpace(s, i)));
    Utf8.AtSplit(s, c, [0x2C], rest);
    AtFirst(s, c, [0x2C]);
    ListedNone(es[1..]);
    ListedParses(s, c + 1, es[1..], f, count + 1);
    ElementStep(s, SkipSpace(s, i), f, count, ElementEvent(e, f), c);
    PrependTwice(ElementEvent(e, f), ElementEvents(es[1..], f),
                 ParseElements(s, SkipSpace(s, i + |Listed(es)|), f, count + |es|));
  }

  /** Parsing goes on inside the array, behind its first elements. */
  lemma ArrayGoesOn(s: seq<byte>, i: nat, es: seq<Element>, f: Flags)
    requires ValidElements(es, f) && Utf8.At(s, i, [0x5B] + Listed(es))
    requires GoesOn(s, SkipSpace(s, i + 1 + |Listed(es)|), 0x5D, es == [], f)
    ensures i < |s| && ParseValue(s, i, f)
         == Prepend([StartArray] + ElementEvents(es, f),
                    ParseElements(s, SkipSpace(s, i + 1 + |Listed(es)|), f, |es|))
  {
    hide ParseElements, SkipSpace, ValidElements, ElementEvents, Listed;
    Utf8.AtSplit(s, i, [0x5B], Listed(es));
    AtFirst(s, i, [0x5B]);
    ListedParses(s, i + 1, es, f, 0);
    ListedNone(es);
    PrependTwice([StartArray], ElementEvents(es, f), ParseElements(s, SkipSpace(s, i + 1 + |Listed(es)|), f, |es|));
  }

  lemma ListedNone(es: seq<Element>)
    ensures es == [] ==> Listed(es) == []
  {
  }

  /** Behind an element there must be a comma or the bracket. */
  lemma ArrayRefused(s: seq<byte>, i: nat, es: seq<Element>, e: Element, f: Flags)
    requires ValidElements(es, f) && ValidElement(e, f) && Utf8.At(s, i, [0x5B] + Listed(es) + RenderElement(e))
    requires var c := Peek(s, i + 1 + |Listed(es)| + |RenderElement(e)|);
             c !in {0x2C, 0x5D, 0x20, 0x09, 0x0A, 0x0D} && !NumberByte(c)
    ensures i < |s| && ParseValue(s, i, f)
         == Failed([StartArray] + ElementEvents(es, f) + ElementEvent(e, f), ArrayMissCommaOrSquareBracket,
                   i + 1 + |Listed(es)| + |RenderElement(e)|)
  {
    hide ParseValue, SkipSpace, ValidElement, ValidElements, RenderElement, ElementEvent, ElementEvents, Listed;
    hide NumberByte;
    var j := i + 1 + |Listed(es)|;
    Utf8.AtSplit(s, i, [0x5B] + Listed(es), RenderElement(e));
    ElementRefused(s, j, e, f);
    ArrayGoesOn(s, i, es, f);
  }

  /** An element in front of a byte that ends it, which may be the end of the text. */
  lemma ElementRefused(s: seq<byte>, j: nat, e: Element, f: Flags)
    requires ValidElement(e, f) && Utf8.At(s, j, RenderElement(e))
    requires var c := Peek(s, j + |RenderElement(e)|); !IsSpace(c) && !NumberByte(c)
    ensures var a := SkipSpace(s, j);
            && j <= |s| && Peek(s, a) != 0x5D && ParseValue(s, a, f).Done?
            && ParseValue(s, a, f).events == ElementEvent(e, f)
            && SkipSpace(s, ParseValue(s, a, f).next) == j + |RenderElement(e)|
  {
    hide ParseValue, SkipSpace, ValidTree, Render, Events, IsSpace, NumberByte, Utf8.At;
    var a := j + |e.before|;
    var b := a + |Render(e.value)|;
    Utf8.AtSplit(s, j, e.before + Render(e.value), e.after);
    Utf8.AtSplit(s, j, e.before, Render(e.value));
    RenderStarts(e.value, f);
    AtFirst(s, a, Render(e.value));
    StartIsNone(Peek(s, a));
    SpacesSkipped(s, j, e.before);
    SpacesSkipped(s, b, e.after);
    if e.after != [] {
      AtFirst(s, b, e.after);
      SpaceEndsNumber(e.after[0]);
    }
    TreeParses(s, a, e.value, f);
  }

  /* ----- inside objects ----- */

  function ListedMembers(ms: seq<Pairing>): seq<byte> {
    if ms == [] then [] else RenderMember(ms[0]) + ([0x2C] + ListedMembers(ms[1..]))
  }

  lemma MemberStep(s: seq<byte>, a: nat, f: Flags, count: nat, events: seq<Event>, c: nat)
    requires a <= |s| && c < |s| && ParseMember(s, a, f) == Done(events, c) && s[c] == 0x2C
    requires GoesOn(s, SkipSpace(s, c + 1), 0x7D, false, f)
    ensures ParseMembers(s, a, f, count) == Prepend(events, ParseMembers(s, SkipSpace(s, c + 1), f, count + 1))
  {
    hide ParseMember, SkipSpace;
    assert MoreMembers(s, c, f, count + 1) == ParseMembers(s, SkipSpace(s, c + 1), f, count + 1);
  }

  /** The members with their commas are read, and parsing goes on behind them. */
  lemma {:induction false} ListedMembersParse(s: seq<byte>, i: nat, ms: seq<Pairing>, f: Flags, count: nat)
    requires ValidMembers(ms, f) && Utf8.At(s, i, ListedMembers(ms)) && i <= |s|
    requires ms != [] ==> GoesOn(s, SkipSpace(s, i + |ListedMembers(ms)|), 0x7D, false, f)
    ensures ParseMembers(s, SkipSpace(s, i), f, count)
         == Prepend(MemberEvents(ms, f), ParseMembers(s, SkipSpace(s, i + |ListedMembers(ms)|), f, count + |ms|))
    ensures ms != [] ==> Peek(s, SkipSpace(s, i)) == 0x22
    decreases |ms|
  {
    hide ParseMember, ParseMembers, SkipSpace, ValidMember, RenderMember, MemberEvent, Delimits;
    if ms == [] {
      PrependTwice([], [], ParseMembers(s, SkipSpace(s, i), f, count));
    } else {
      var m, rest := ms[0], ListedMembers(ms[1..]);
      var c := i + |RenderMember(m)|;
      RestDelimits([], 0x7D, f);
      MemberParses(s, i, m, [0x2C] + rest, f);
      Utf8.AtSplit(s, c, [0x2C], rest);
      AtFirst(s, c, [0x2C]);
      ListedMembersParse(s, c + 1, ms[1..], f, count + 1);
      MemberStep(s, SkipSpace(s, i), f, count, MemberEvent(m, f), c);
      PrependTwice(MemberEvent(m, f), MemberEvents(ms[1..], f),
                   ParseMembers(s, SkipSpace(s, i + |ListedMembers(ms)|), f, count + |ms|));
    }
  }

  /** Parsing goes on inside the object, behind its first members. */
  lemma ObjectGoesOn(s: seq<byte>, i: nat, ms: seq<Pairing>, f: Flags)
    requires ValidMembers(ms, f) && Utf8.At(s, i, [0x7B] + ListedMembers(ms))
    requires GoesOn(s, SkipSpace(s, i + 1 + |ListedMembers(ms)|), 0x7D, ms == [], f)
    ensures i < |s| && ParseValue(s, i, f)
         == Prepend([StartObject] + MemberEvents(ms, f),
                    ParseMembers(s, SkipSpace(s, i + 1 + |ListedMembers(ms)|), f, |ms|))
  {
    hide ParseMembers, SkipSpace, ValidMembers, MemberEvents, ListedMembers;
    Utf8.AtSplit(s, i, [0x7B], ListedMembers(ms));
    AtFirst(s, i, [0x7B]);
    ListedMembersParse(s, i + 1, ms, f, 0);
    NoMembersListed(ms);
    PrependTwice([StartObject], MemberEvents(ms, f),
                 ParseMembers(s, SkipSpace(s, i + 1 + |ListedMembers(ms)|), f, |ms|));
  }

  lemma NoMembersListed(ms: seq<Pairing>)
    ensures ms == [] ==> ListedMembers(ms) == []
  {
  }

  /** A member must begin with its name, and the name must be followed by a colon. */
  lemma ObjectRefused(s: seq<byte>, i: nat, ms: seq<Pairing>, f: Flags)
    requires ValidMembers(ms, f) && Utf8.At(s, i, [0x7B] + ListedMembers(ms))
    requires GoesOn(s, SkipSpace(s, i + 1 + |ListedMembers(ms)|), 0x7D, ms == [], f)
    ensures var j := SkipSpace(s, i + 1 + |ListedMembers(ms)|);
            Peek(s, j) != 0x22 ==>
              i <= |s| && ParseValue(s, i, f) == Failed([StartObject] + MemberEvents(ms, f), ObjectMissName, j)
    ensures var j := SkipSpace(s, i + 1 + |ListedMembers(ms)|);
            Peek(s, j) == 0x22 ==>
              && (ScanString(s, j + 1).Bad? ==>
                    ParseValue(s, i, f) == Failed([StartObject] + MemberEvents(ms, f), ScanString(s, j + 1).code,
                                                  ScanString(s, j + 1).offset))
              && (ScanString(s, j + 1).Lexed? && Peek(s, SkipSpace(s, ScanString(s, j + 1).next)) != 0x3A ==>
                    ParseValue(s, i, f)
                    == Failed([StartObject] + MemberEvents(ms, f) + [Key(ScanString(s, j + 1).value)],
                              ObjectMissColon, SkipSpace(s, ScanString(s, j + 1).next)))
  {
    hide ParseValue, SkipSpace, ValidMembers, MemberEvents, ListedMembers, ScanString;
    ObjectGoesOn(s, i, ms, f);
  }

  /** Behind a member there must be a comma or the bracket. */
  lemma MemberRefused(s: seq<byte>, i: nat, ms: seq<Pairing>, m: Pairing, f: Flags)
    requires ValidMembers(ms, f) && ValidMember(m, f)
    requires Utf8.At(s, i, [0x7B] + ListedMembers(ms) + RenderMember(m))
    requires var c := Peek(s, i + 1 + |ListedMembers(ms)| + |RenderMember(m)|);
             c !in {0x2C, 0x7D, 0x20, 0x09, 0x0A, 0x0D} && !NumberByte(c)
    ensures i < |s| && ParseValue(s, i, f)
         == Failed([StartObject] + MemberEvents(ms, f) + MemberEvent(m, f), ObjectMissCommaOrCurlyBracket,
                   i + 1 + |ListedMembers(ms)| + |RenderMember(m)|)
  {
    hide ParseValue, SkipSpace, ValidMember, ValidMembers, RenderMember, MemberEvent, MemberEvents, ListedMembers;
    hide NumberByte, ParseMember;
    var j := i + 1 + |ListedMembers(ms)|;
    Utf8.AtSplit(s, i, [0x7B] + ListedMembers(ms), RenderMember(m));
    WholeMember(s, j, m, f);
    ObjectGoesOn(s, i, ms, f);
  }

  /** A member in front of a byte that ends it, which may be the end of the text. */
  lemma WholeMember(s: seq<byte>, j: nat, m: Pairing, f: Flags)
    requires ValidMember(m, f) && Utf8.At(s, j, RenderMember(m))
    requires var c := Peek(s, j + |RenderMember(m)|); !IsSpace(c) && !NumberByte(c)
    ensures var a := SkipSpace(s, j);
            j <= |s| && Peek(s, a) == 0x22 && ParseMember(s, a, f) == Done(MemberEvent(m, f), j + |RenderMember(m)|)
  {
    hide ParseValue, SkipSpace, ValidElement, RenderElement, ElementEvent, ScanString, StringRest, ValidPieces;
    hide StringValue, IsSpace, Utf8.At, RenderMember, NumberByte;
    var a := j + |m.before|;
    var k := a + 1 + |StringRest(m.name)|;
    assert RenderMember(m) + [] == RenderMember(m) && RenderElement(m.value) + [] == RenderElement(m.value);
    NamePlaced(s, j, m, []);
    StringReads(s, a + 1, m.name);
    ElementRefused(s, k + |m.gap| + 1, m.value, f);
  }

  /* ----- errors further in, and whole documents ----- */

  /** A container that is open, up to where its next value begins. */
  datatype Frame =
    | InArray(elements: seq<Element>, before: seq<byte>)
    | InObject(members: seq<Pairing>, before: seq<byte>, name: seq<Piece>, gap: seq<byte>, behind: seq<byte>)

  predicate ValidFrame(fr: Frame, f: Flags) {
    match fr
    case InArray(es, before) => ValidElements(es, f) && Spaces(before)
    case InObject(ms, before, name, gap, behind) =>
      ValidMembers(ms, f) && Spaces(before) && ValidPieces(name) && Spaces(gap) && Spaces(behind)
  }

  function FrameText(fr: Frame): seq<byte> {
    match fr
    case InArray(es, before) => [0x5B] + Listed(es) + before
    case InObject(ms, _, _, _, _) => [0x7B] + ListedMembers(ms) + NamedText(fr)
  }

  /** White space, a name, white space, the colon, and white space. */
  function NamedText(fr: Frame): seq<byte>
    requires fr.InObject?
  {
    fr.before + ([0x22] + (StringRest(fr.name) + (fr.gap + ([0x3A] + fr.behind))))
  }

  /** The events in front of the value. */
  function FrameEvents(fr: Frame, f: Flags): seq<Event>
    requires ValidFrame(fr, f)
  {
    match fr
    case InArray(es, _) => [StartArray] + ElementEvents(es, f)
    case InObject(ms, _, name, _, _) => [StartObject] + MemberEvents(ms, f) + [Key(StringValue(name))]
  }

  lemma ElementsFail(s: seq<byte>, a: nat, f: Flags, count: nat)
    requires a <= |s| && ParseValue(s, a, f).Failed?
    ensures ParseElements(s, a, f, count) == ParseValue(s, a, f)
  {
    hide ParseValue;
  }

  /** An error in a value is that of the container. */
  lemma FrameFails(s: seq<byte>, i: nat, fr: Frame, f: Flags)
    requires ValidFrame(fr, f) && Utf8.At(s, i, FrameText(fr)) && !IsSpace(Peek(s, i + |FrameText(fr)|))
    requires fr.InArray? ==> GoesOn(s, i + |FrameText(fr)|, 0x5D, fr.elements == [], f)
    requires ParseValue(s, i + |FrameText(fr)|, f).Failed?
    ensures i < |s| && ParseValue(s, i, f) == Prepend(FrameEvents(fr, f), ParseValue(s, i + |FrameText(fr)|, f))
  {
    hide ParseValue, SkipSpace, ValidElements, ElementEvents, Listed, ValidMembers, MemberEvents, ListedMembers;
    hide StringRest, StringValue, ValidPieces, Spaces, IsSpace, ScanString, Utf8.At;
    match fr
    case InArray(es, before) =>
      Utf8.AtSplit(s, i, [0x5B] + Listed(es), before);
      SpacesSkipped(s, i + 1 + |Listed(es)|, before);
      ArrayGoesOn(s, i, es, f);
      ElementsFail(s, i + |FrameText(fr)|, f, |es|);
      PrependTwice(FrameEvents(fr, f), [], ParseValue(s, i + |FrameText(fr)|, f));
    case InObject(ms, before, name, gap, behind) =>
      ObjectFrameFails(s, i, fr, f);
  }

  /** A name begins at `a`, and its value, behind the colon, at `b`. */
  predicate NamedAt(s: seq<byte>, a: nat, name: seq<byte>, b: nat)
    requires a <= |s|
  {
    && Peek(s, a) == 0x22 && ScanString(s, a + 1).Lexed? && ScanString(s, a + 1).value == name
    && var colon := SkipSpace(s, ScanString(s, a + 1).next);
       colon < |s| && Peek(s, colon) == 0x3A && SkipSpace(s, colon + 1) == b
  }

  /** Where the parts of an open member stand. */
  lemma NamedCut(s: seq<byte>, j: nat, fr: Frame)
    requires fr.InObject? && Utf8.At(s, j, NamedText(fr))
    ensures var a := j + |fr.before|; var k := a + 1 + |StringRest(fr.name)|; var colon := k + |fr.gap|;
            && Utf8.At(s, j, fr.before) && Utf8.At(s, a, [0x22]) && Utf8.At(s, a + 1, StringRest(fr.name))
            && Utf8.At(s, k, fr.gap) && Utf8.At(s, colon, [0x3A]) && Utf8.At(s, colon + 1, fr.behind)
            && colon + 1 + |fr.behind| == j + |NamedText(fr)| <= |s|
  {
    hide StringRest;
    var a := j + |fr.before|;
    var k := a + 1 + |StringRest(fr.name)|;
    var fromGap := fr.gap + ([0x3A] + fr.behind);
    assert j + |NamedText(fr)| <= |s|;
    hide Utf8.At;
    Utf8.AtSplit(s, j, fr.before, [0x22] + (StringRest(fr.name) + fromGap));
    Utf8.AtSplit(s, a, [0x22], StringRest(fr.name) + fromGap);
    Utf8.AtSplit(s, a + 1, StringRest(fr.name), fromGap);
    Utf8.AtSplit(s, k, fr.gap, [0x3A] + fr.behind);
    Utf8.AtSplit(s, k + |fr.gap|, [0x3A], fr.behind);
  }

  lemma NamedValue(s: seq<byte>, j: nat, fr: Frame)
    requires fr.InObject? && Spaces(fr.before) && ValidPieces(fr.name) && Spaces(fr.gap) && Spaces(fr.behind)
    requires Utf8.At(s, j, NamedText(fr)) && !IsSpace(Peek(s, j + |NamedText(fr)|))
    ensures j <= |s| && Peek(s, SkipSpace(s, j)) == 0x22
    ensures NamedAt(s, SkipSpace(s, j), StringValue(fr.name), j + |NamedText(fr)|)
  {
    hide SkipSpace, StringRest, StringValue, ValidPieces, Spaces, IsSpace, ScanString, Utf8.At, NamedText;
    var a := j + |fr.before|;
    var k := a + 1 + |StringRest(fr.name)|;
    var colon := k + |fr.gap|;
    NamedCut(s, j, fr);
    AtFirst(s, a, [0x22]);
    AtFirst(s, colon, [0x3A]);
    NoSpace();
    SpacesSkipped(s, j, fr.before);
    SpacesSkipped(s, k, fr.gap);
    SpacesSkipped(s, colon + 1, fr.behind);
    StringReads(s, a + 1, fr.name);
  }

  lemma NoSpace()
    ensures !IsSpace(0x22) && !IsSpace(0x3A)
  {
  }

  lemma ObjectFrameFails(s: seq<byte>, i: nat, fr: Frame, f: Flags)
    requires fr.InObject? && ValidFrame(fr, f) && Utf8.At(s, i, FrameText(fr))
    requires !IsSpace(Peek(s, i + |FrameText(fr)|)) && ParseValue(s, i + |FrameText(fr)|, f).Failed?
    ensures i < |s| && ParseValue(s, i, f) == Prepend(FrameEvents(fr, f), ParseValue(s, i + |FrameText(fr)|, f))
  {
    hide ParseValue, SkipSpace, ValidMembers, MemberEvents, ListedMembers, StringValue, ValidPieces, Spaces;
    hide IsSpace, Utf8.At, ParseMembers, NamedText, NamedAt;
    var j := i + 1 + |ListedMembers(fr.members)|;
    Utf8.AtSplit(s, i, [0x7B] + ListedMembers(fr.members), NamedText(fr));
    NamedValue(s, j, fr);
    ObjectGoesOn(s, i, fr.members, f);
    MemberFails(s, SkipSpace(s, j), StringValue(fr.name), j + |NamedText(fr)|, f, |fr.members|);
    PrependTwice([StartObject] + MemberEvents(fr.members, f), [Key(StringValue(fr.name))],
                 ParseValue(s, i + |FrameText(fr)|, f));
  }

  /** A member fails with the error of its value. */
  lemma MemberFails(s: seq<byte>, a: nat, name: seq<byte>, b: nat, f: Flags, count: nat)
    requires a <= |s| && b <= |s| && NamedAt(s, a, name, b) && ParseValue(s, b, f).Failed?
    ensures ParseMembers(s, a, f, count) == Prepend([Key(name)], ParseValue(s, b, f))
  {
    hide ParseValue, SkipSpace, ScanString;
  }

  function FrontText(front: seq<Frame>): seq<byte> {
    if front == [] then [] else FrameText(front[0]) + FrontText(front[1..])
  }

  predicate ValidFront(front: seq<Frame>, f: Flags) { forall k | 0 <= k < |front| :: ValidFrame(front[k], f) }

  function FrontEvents(front: seq<Frame>, f: Flags): seq<Event>
    requires ValidFront(front, f)
  {
    if front == [] then [] else FrameEvents(front[0], f) + FrontEvents(front[1..], f)
  }

  /** A value begins at `a`, and not the bracket that the innermost container could end with. */
  predicate ValueDue(s: seq<byte>, a: nat, front: seq<Frame>, f: Flags) {
    && !IsSpace(Peek(s, a))
    && (front != [] && front[|front| - 1].InArray? ==> GoesOn(s, a, 0x5D, front[|front| - 1].elements == [], f))
  }

  lemma FrameStarts(s: seq<byte>, i: nat, front: seq<Frame>, f: Flags)
    requires front != [] && Utf8.At(s, i, FrontText(front))
    ensures i < |s| && !IsSpace(Peek(s, i)) && Peek(s, i) != 0x5D && Peek(s, i) != 0
  {
    hide Listed, ListedMembers, NamedText;
    AtFirst(s, i, FrontText(front));
  }

  /** An error inside containers is that of the outermost one. */
  lemma {:induction false} FrontFails(s: seq<byte>, i: nat, front: seq<Frame>, f: Flags)
    requires ValidFront(front, f) && Utf8.At(s, i, FrontText(front)) && i <= |s|
    requires ValueDue(s, i + |FrontText(front)|, front, f) && ParseValue(s, i + |FrontText(front)|, f).Failed?
    ensures ParseValue(s, i, f) == Prepend(FrontEvents(front, f), ParseValue(s, i + |FrontText(front)|, f))
    decreases |front|
  {
    hide ParseValue, ValidFrame, FrameText, FrameEvents, IsSpace;
    var end := i + |FrontText(front)|;
    if front == [] {
      PrependTwice([], [], ParseValue(s, end, f));
    } else {
      var j := i + |FrameText(front[0])|;
      Utf8.AtSplit(s, i, FrameText(front[0]), FrontText(front[1..]));
      if |front| > 1 {
        FrameStarts(s, j, front[1..], f);
      }
      FrontFails(s, j, front[1..], f);
      FrameFails(s, i, front[0], f);
      PrependTwice(FrameEvents(front[0], f), FrontEvents(front[1..], f), ParseValue(s, end, f));
    }
  }

  /** An error inside the root value is that of the document. */
  lemma DocumentRefused(s: seq<byte>, lead: seq<byte>, front: seq<Frame>, f: Flags)
    requires Spaces(lead) && ValidFront(front, f) && Utf8.At(s, 0, lead + FrontText(front))
    requires var a := |lead| + |FrontText(front)|;
             ValueDue(s, a, front, f) && (front == [] ==> Peek(s, a) != 0) && ParseValue(s, a, f).Failed?
    ensures var r := ParseValue(s, |lead| + |FrontText(front)|, f);
            Parse(s, f) == Rejected(FrontEvents(front, f) + r.events, r.code, r.offset)
  {
    hide ParseValue, SkipSpace, FrontText, FrontEvents, ValidFront, IsSpace, Spaces;
    Utf8.AtSplit(s, 0, lead, FrontText(front));
    if front != [] {
      FrameStarts(s, |lead|, front, f);
    } else {
      NoFront();
    }
    SpacesSkipped(s, 0, lead);
    FrontFails(s, |lead|, front, f);
  }

  lemma NoFront()
    ensures FrontText([]) == []
  {
  }

  /** A text of white space is no document, and behind the root there may be nothing but white space. */
  lemma RootRefused(s: seq<byte>, w: seq<byte>, doc: Element, f: Flags)
    ensures Spaces(w) && Utf8.At(s, 0, w) && Peek(s, |w|) == 0 ==> Parse(s, f) == Rejected([], DocumentEmpty, |w|)
    ensures !f.stopWhenDone && ValidElement(doc, f) && Utf8.At(s, 0, RenderElement(doc))
            && NoRest(Peek(s, |RenderElement(doc)|)) ==>
              Parse(s, f) == Rejected(ElementEvent(doc, f), DocumentRootNotSingular, |RenderElement(doc)|)
  {
    hide ParseValue, SkipSpace, ValidElement, RenderElement, ElementEvent, Spaces, NumberByte, IsSpace, NoRest;
    RestIs(Peek(s, |w|));
    RestIs(Peek(s, |RenderElement(doc)|));
    if Spaces(w) && Utf8.At(s, 0, w) && Peek(s, |w|) == 0 {
      SpacesSkipped(s, 0, w);
    }
    if !f.stopWhenDone && ValidElement(doc, f) && Utf8.At(s, 0, RenderElement(doc))
       && NoRest(Peek(s, |RenderElement(doc)|)) {
      ElementRefused(s, 0, doc, f);
      ElementStarts(s, doc, f);
    }
  }

  /** A byte that ends the root, and is neither white space nor the end of the text. */
  predicate NoRest(c: byte) { c !in {0x00, 0x20, 0x09, 0x0A, 0x0D} && !NumberByte(c) }

  lemma RestIs(c: byte)
    ensures NoRest(c) ==> !IsSpace(c) && !NumberByte(c) && c != 0
    ensures c == 0 ==> !IsSpace(c)
  {
  }

  lemma ElementStarts(s: seq<byte>, doc: Element, f: Flags)
    requires ValidElement(doc, f) && Utf8.At(s, 0, RenderElement(doc))
    ensures Peek(s, SkipSpace(s, 0)) != 0
  {
    hide SkipSpace, ValidTree, Render, Spaces, IsSpace;
    Utf8.AtSplit(s, 0, doc.before + Render(doc.value), doc.after);
    Utf8.AtSplit(s, 0, doc.before, Render(doc.value));
    RenderStarts(doc.value, f);
    AtFirst(s, |doc.before|, Render(doc.value));
    StartIsNone(Peek(s, |doc.before|));
    SpacesSkipped(s, 0, doc.before);
  }
}
