/**
 * The language of the parsers, by what its texts look like: sections 2 to 7 of RFC 8259, with the
 * white space, the escapes and the trailing commas of a text as choices in a tree.
 */
module JsonGrammar {
  import opened Bytes
  import Utf8
  import opened JsonText
  import opened JsonDescent
  import opened JsonNumber

  /* ----- characters of a string ----- */

  /** A byte as it is, an escape of one letter, an escaped code unit, or an escaped surrogate pair. */
  datatype Piece = Raw(b: byte) | Short(letter: byte) | Single(unit: seq<byte>) | Pair(high: seq<byte>, low: seq<byte>)

  /** The escapes of one letter in section 7 of RFC 8259, and the bytes they stand for. */
  const SHORT_ESCAPES: map<byte, byte> :=
    map[0x22 := 0x22, 0x5C := 0x5C, 0x2F := 0x2F, 0x62 := 0x08, 0x66 := 0x0C, 0x6E := 0x0A, 0x72 := 0x0D, 0x74 := 0x09]

  predicate IsHex(c: byte) { 0x30 <= c <= 0x39 || 0x41 <= c <= 0x46 || 0x61 <= c <= 0x66 }

  function HexValue(c: byte): (n: nat)
    requires IsHex(c)
    ensures n < 16
  {
    if c <= 0x39 then c - 0x30 else if c <= 0x46 then c - 0x37 else c - 0x57
  }

  predicate IsHex4(d: seq<byte>) {
    |d| == 4 && IsHex(d[0]) && IsHex(d[1]) && IsHex(d[2]) && IsHex(d[3])
  }

  function Hex4(d: seq<byte>): (n: nat)
    requires IsHex4(d)
    ensures n < 65536
  {
    4096 * HexValue(d[0]) + 256 * HexValue(d[1]) + 16 * HexValue(d[2]) + HexValue(d[3])
  }

  predicate ValidPiece(p: Piece) {
    match p
    case Raw(b) => b >= 0x20 && b != 0x22 && b != 0x5C
    case Short(letter) => letter in SHORT_ESCAPES
    case Single(unit) => IsHex4(unit) && !(0xD800 <= Hex4(unit) <= 0xDBFF)
    case Pair(high, low) =>
      IsHex4(high) && IsHex4(low) && 0xD800 <= Hex4(high) <= 0xDBFF && 0xDC00 <= Hex4(low) <= 0xDFFF
  }

  function PieceText(p: Piece): seq<byte> {
    match p
    case Raw(b) => [b]
    case Short(letter) => [0x5C, letter]
    case Single(unit) => [0x5C, 0x75] + unit
    case Pair(high, low) => [0x5C, 0x75] + high + [0x5C, 0x75] + low
  }

  /** The bytes that the character stands for. */
  function PieceValue(p: Piece): seq<byte>
    requires ValidPiece(p)
  {
    match p
    case Raw(b) => [b]
    case Short(letter) => [SHORT_ESCAPES[letter]]
    case Single(unit) => Utf8.Encode(Hex4(unit))
    case Pair(high, low) => Utf8.Encode(0x10000 + 0x400 * (Hex4(high) - 0xD800) + (Hex4(low) - 0xDC00))
  }

  predicate ValidPieces(ps: seq<Piece>) { forall k | 0 <= k < |ps| :: ValidPiece(ps[k]) }

  /** The characters and the closing quote. */
  function StringRest(ps: seq<Piece>): seq<byte> {
    if ps == [] then [0x22] else PieceText(ps[0]) + StringRest(ps[1..])
  }

  function StringValue(ps: seq<Piece>): seq<byte>
    requires ValidPieces(ps)
  {
    if ps == [] then [] else PieceValue(ps[0]) + StringValue(ps[1..])
  }

  /* ----- reading strings ----- */

  lemma AtFirst(s: seq<byte>, i: nat, a: seq<byte>)
    requires Utf8.At(s, i, a) && a != []
    ensures i < |s| && Peek(s, i) == a[0]
  {
    assert s[i..i + |a|][0] == s[i];
  }

  /** The lexer's digits are the hexadecimal ones. */
  lemma HexDigitIs(c: byte)
    ensures HexDigit(c) == if IsHex(c) then Some(HexValue(c)) else None
  {
  }

  lemma HexAt(s: seq<byte>, i: nat, d: seq<byte>)
    requires Utf8.At(s, i, d) && |d| == 4
    ensures Hex(s, i, 4, 0) == if IsHex4(d) then Some(Hex4(d)) else None
  {
    hide HexDigit, IsHex, HexValue;
    Utf8.AtPeek(s, i, d);
    assert Peek(s, i + 0) == d[0] && Peek(s, i + 1) == d[1] && Peek(s, i + 2) == d[2] && Peek(s, i + 3) == d[3];
    HexDigitIs(d[0]);
    HexDigitIs(d[1]);
    HexDigitIs(d[2]);
    HexDigitIs(d[3]);
    Hex1(s, i + 3, if HexDigit(d[0]).Some? && HexDigit(d[1]).Some? && HexDigit(d[2]).Some?
                   then (HexDigit(d[0]).value * 16 + HexDigit(d[1]).value) * 16 + HexDigit(d[2]).value else 0);
  }

  lemma Hex1(s: seq<byte>, i: nat, acc: nat)
    ensures Hex(s, i, 1, acc) == if HexDigit(Peek(s, i)).Some? then Some(acc * 16 + HexDigit(Peek(s, i)).value)
        else None
  {
  }

  /** The lexer's escapes of one letter are those of the table. */
  lemma ShortEscape(letter: byte)
    ensures Unescaped(letter) == if letter in SHORT_ESCAPES then SHORT_ESCAPES[letter] else 0
    ensures letter in SHORT_ESCAPES ==> SHORT_ESCAPES[letter] != 0 && letter != 0x75
  {
  }

  /** An escape is read as the character it writes. */
  lemma EscapeReads(s: seq<byte>, i: nat, p: Piece)
    requires ValidPiece(p) && !p.Raw? && Utf8.At(s, i, PieceText(p))
    ensures i < |s| && ScanEscape(s, i) == Lexed(PieceValue(p), i + |PieceText(p)|) && Peek(s, i) == BACKSLASH
  {
    hide Hex, Utf8.Encode, HexDigit, IsHex, Hex4, Unescaped;
    Utf8.AtPeek(s, i, PieceText(p));
    assert Peek(s, i + 0) == BACKSLASH && Peek(s, i + 1) == PieceText(p)[1];
    match p
    case Short(letter) => ShortEscape(letter);
    case Single(unit) =>
      ShortEscape(0x75);
      Utf8.AtSplit(s, i, [0x5C, 0x75], unit);
      HexAt(s, i + 2, unit);
    case Pair(high, low) =>
      ShortEscape(0x75);
      PairUnits(s, i, high, low);
      assert Peek(s, i + 6) == PieceText(p)[6] && Peek(s, i + 7) == PieceText(p)[7];
  }

  lemma PairUnits(s: seq<byte>, i: nat, high: seq<byte>, low: seq<byte>)
    requires IsHex4(high) && IsHex4(low) && Utf8.At(s, i, PieceText(Pair(high, low)))
    ensures Hex(s, i + 2, 4, 0) == Some(Hex4(high)) && Hex(s, i + 8, 4, 0) == Some(Hex4(low))
  {
    hide Hex, Hex4, IsHex;
    Utf8.AtSplit(s, i, [0x5C, 0x75] + high + [0x5C, 0x75], low);
    Utf8.AtSplit(s, i, [0x5C, 0x75] + high, [0x5C, 0x75]);
    Utf8.AtSplit(s, i, [0x5C, 0x75], high);
    HexAt(s, i + 2, high);
    HexAt(s, i + 8, low);
  }

  /** A string is read as the characters that write it. */
  lemma {:induction false} StringReads(s: seq<byte>, i: nat, ps: seq<Piece>)
    requires ValidPieces(ps) && i <= |s| && Utf8.At(s, i, StringRest(ps))
    ensures ScanString(s, i) == Lexed(StringValue(ps), i + |StringRest(ps)|)
    decreases |ps|
  {
    hide ScanEscape, ValidPiece, PieceValue, PieceText;
    if ps == [] {
      AtFirst(s, i, [QUOTE]);
    } else {
      Utf8.AtSplit(s, i, PieceText(ps[0]), StringRest(ps[1..]));
      StringReads(s, i + |PieceText(ps[0])|, ps[1..]);
      if ps[0].Raw? {
        RawReads(ps[0]);
        AtFirst(s, i, PieceText(ps[0]));
      } else {
        EscapeReads(s, i, ps[0]);
      }
    }
  }

  lemma RawReads(p: Piece)
    requires ValidPiece(p) && p.Raw?
    ensures p.b >= 0x20 && p.b != QUOTE && p.b != BACKSLASH && PieceValue(p) == [p.b] == PieceText(p)
  {
  }

  /** The character that an escape writes. */
  lemma EscapeRead(s: seq<byte>, i: nat) returns (p: Piece)
    requires i < |s| && Peek(s, i) == BACKSLASH && ScanEscape(s, i).Lexed?
    ensures ValidPiece(p) && PieceText(p) == s[i..ScanEscape(s, i).next] && PieceValue(p) == ScanEscape(s, i).value
  {
    hide Hex, Utf8.Encode, HexDigit, IsHex, Hex4, Unescaped;
    var e := Peek(s, i + 1);
    var next := ScanEscape(s, i).next;
    ShortEscape(e);
    if Unescaped(e) != 0 {
      p := Short(e);
      assert s[i..i + 2] == [s[i], s[i + 1]];
    } else {
      var unit := s[i + 2..i + 6];
      HexAt(s, i + 2, unit);
      if next == i + 6 {
        p := Single(unit);
        assert s[i..i + 6] == [s[i], s[i + 1]] + unit;
      } else {
        var low := s[i + 8..i + 12];
        HexAt(s, i + 8, low);
        p := Pair(unit, low);
        PairSlices(s, i);
      }
    }
  }

  lemma PairSlices(s: seq<byte>, i: nat)
    requires i + 12 <= |s|
    ensures s[i..i + 12] == [s[i], s[i + 1]] + s[i + 2..i + 6] + [s[i + 6], s[i + 7]] + s[i + 8..i + 12]
  {
  }

  /** The characters that write a string. */
  lemma {:induction false} StringRead(s: seq<byte>, i: nat) returns (ps: seq<Piece>)
    requires i <= |s| && ScanString(s, i).Lexed?
    ensures ValidPieces(ps) && StringRest(ps) == s[i..ScanString(s, i).next]
        && StringValue(ps) == ScanString(s, i).value
    decreases |s| - i
  {
    hide ScanEscape, ValidPiece, PieceText, PieceValue;
    var c := Peek(s, i);
    if c == QUOTE {
      ps := [];
      assert s[i..i + 1] == [QUOTE];
    } else {
      var p: Piece;
      var k;
      if c == BACKSLASH {
        p := EscapeRead(s, i);
        k := ScanEscape(s, i).next;
      } else {
        p, k := Raw(c), i + 1;
        RawRead(s, i);
      }
      var rest := StringRead(s, k);
      ps := [p] + rest;
      assert ps[1..] == rest;
      assert s[i..ScanString(s, i).next] == s[i..k] + s[k..ScanString(s, i).next];
    }
  }

  lemma RawRead(s: seq<byte>, i: nat)
    requires i < |s| && s[i] >= 0x20 && s[i] != QUOTE && s[i] != BACKSLASH
    ensures ValidPiece(Raw(s[i])) && PieceText(Raw(s[i])) == s[i..i + 1] && PieceValue(Raw(s[i])) == [s[i]]
  {
  }

  /* ----- texts as trees ----- */

  /**
   * A value with the text that writes it. `closing` is what stands before the closing bracket: white
   * space in an empty container, and nothing or a trailing comma with white space in another.
   */
  datatype Tree =
    | Word(event: Event)
    | NumberTree(number: Number)
    | TextTree(pieces: seq<Piece>)
    | ArrayTree(elements: seq<Element>, closing: seq<byte>)
    | ObjectTree(members: seq<Pairing>, closing: seq<byte>)

  datatype Element = Element(before: seq<byte>, value: Tree, after: seq<byte>)

  datatype Pairing = Pairing(before: seq<byte>, name: seq<Piece>, gap: seq<byte>, value: Element)

  predicate Spaces(w: seq<byte>) { forall k | 0 <= k < |w| :: w[k] in {0x20, 0x09, 0x0A, 0x0D} }

  predicate ValidClosing(empty: bool, closing: seq<byte>, f: Flags) {
    if empty then Spaces(closing)
    else closing == [] || (f.trailingCommas && closing[0] == 0x2C && Spaces(closing[1..]))
  }

  predicate IsWord(event: Event) { event == Null || event == Bool(true) || event == Bool(false) }

  function WordText(event: Event): seq<byte> {
    if event == Null then [0x6E, 0x75, 0x6C, 0x6C]
    else if event == Bool(true) then [0x74, 0x72, 0x75, 0x65]
    else [0x66, 0x61, 0x6C, 0x73, 0x65]
  }

  predicate ValidTree(t: Tree, f: Flags)
    decreases t
  {
    match t
    case Word(event) => IsWord(event)
    case NumberTree(n) => ValidNumber(n) && !TooBig(n, f)
    case TextTree(pieces) => ValidPieces(pieces)
    case ArrayTree(elements, closing) => ValidClosing(elements == [], closing, f) && ValidElements(elements, f)
    case ObjectTree(members, closing) => ValidClosing(members == [], closing, f) && ValidMembers(members, f)
  }

  predicate ValidElement(e: Element, f: Flags)
    decreases e
  {
    Spaces(e.before) && ValidTree(e.value, f) && Spaces(e.after)
  }

  predicate ValidElements(es: seq<Element>, f: Flags)
    decreases es
  {
    es == [] || (ValidElement(es[0], f) && ValidElements(es[1..], f))
  }

  predicate ValidMember(m: Pairing, f: Flags)
    decreases m
  {
    Spaces(m.before) && ValidPieces(m.name) && Spaces(m.gap) && ValidElement(m.value, f)
  }

  predicate ValidMembers(ms: seq<Pairing>, f: Flags)
    decreases ms
  {
    ms == [] || (ValidMember(ms[0], f) && ValidMembers(ms[1..], f))
  }

  /* ----- their texts ----- */

  function Render(t: Tree): seq<byte>
    decreases t, 0
  {
    match t
    case Word(event) => WordText(event)
    case NumberTree(n) => NumberText(n)
    case TextTree(pieces) => [0x22] + StringRest(pieces)
    case ArrayTree(elements, closing) =>
      [0x5B] + (if elements == [] then closing + [0x5D] else RenderElements(elements, closing))
    case ObjectTree(members, closing) =>
      [0x7B] + (if members == [] then closing + [0x7D] else RenderMembers(members, closing))
  }

  function RenderElement(e: Element): seq<byte>
    decreases e, 0
  {
    e.before + Render(e.value) + e.after
  }

  /** The elements, with commas between them, and the closing. */
  function RenderElements(es: seq<Element>, closing: seq<byte>): seq<byte>
    requires es != []
    decreases es, 0
  {
    RenderElement(es[0]) +
    if |es| == 1 then closing + [0x5D] else [0x2C] + RenderElements(es[1..], closing)
  }

  function RenderMember(m: Pairing): seq<byte>
    decreases m, 0
  {
    m.before + [0x22] + StringRest(m.name) + m.gap + [0x3A] + RenderElement(m.value)
  }

  function RenderMembers(ms: seq<Pairing>, closing: seq<byte>): seq<byte>
    requires ms != []
    decreases ms, 0
  {
    RenderMember(ms[0]) +
    if |ms| == 1 then closing + [0x7D] else [0x2C] + RenderMembers(ms[1..], closing)
  }

  /* ----- their events ----- */

  function Events(t: Tree, f: Flags): seq<Event>
    requires ValidTree(t, f)
    decreases t, 0
  {
    match t
    case Word(event) => [event]
    case NumberTree(n) => [NumberMeaning(n)]
    case TextTree(pieces) => [String(StringValue(pieces))]
    case ArrayTree(elements, _) => [StartArray] + ElementEvents(elements, f) + [EndArray(|elements|)]
    case ObjectTree(members, _) => [StartObject] + MemberEvents(members, f) + [EndObject(|members|)]
  }

  function ElementEvent(e: Element, f: Flags): seq<Event>
    requires ValidElement(e, f)
    decreases e, 0
  {
    Events(e.value, f)
  }

  function ElementEvents(es: seq<Element>, f: Flags): seq<Event>
    requires ValidElements(es, f)
    decreases es, 0
  {
    if es == [] then [] else ElementEvent(es[0], f) + ElementEvents(es[1..], f)
  }

  function MemberEvent(m: Pairing, f: Flags): seq<Event>
    requires ValidMember(m, f)
    decreases m, 0
  {
    [Key(StringValue(m.name))] + ElementEvent(m.value, f)
  }

  function MemberEvents(ms: seq<Pairing>, f: Flags): seq<Event>
    requires ValidMembers(ms, f)
    decreases ms, 0
  {
    if ms == [] then [] else MemberEvent(ms[0], f) + MemberEvents(ms[1..], f)
  }

  /* ----- small readings ----- */

  /** White space is skipped up to the byte after it. */
  lemma {:induction false} SpacesSkipped(s: seq<byte>, i: nat, w: seq<byte>)
    requires Spaces(w) && Utf8.At(s, i, w) && !IsSpace(Peek(s, i + |w|))
    ensures SkipSpace(s, i) == i + |w|
    decreases |w|
  {
    if w != [] {
      AtFirst(s, i, w);
      assert w == [w[0]] + w[1..];
      Utf8.AtSplit(s, i, [w[0]], w[1..]);
      SpacesSkipped(s, i + 1, w[1..]);
    }
  }

  lemma {:induction false} SkippedSpaces(s: seq<byte>, i: nat)
    requires i <= |s|
    ensures Spaces(s[i..SkipSpace(s, i)])
    decreases |s| - i
  {
    if IsSpace(Peek(s, i)) {
      SkippedSpaces(s, i + 1);
      assert s[i..SkipSpace(s, i)] == [s[i]] + s[i + 1..SkipSpace(s, i)];
    }
  }

  /** The bytes that a value can begin with. */
  predicate StartsValue(c: byte) {
    c in {QUOTE, LEFT_BRACKET, LEFT_CURLY, LETTER_N, LETTER_T, LETTER_F, MINUS} || IsDigit(c)
  }

  lemma RenderStarts(t: Tree, f: Flags)
    requires ValidTree(t, f)
    ensures Render(t) != [] && StartsValue(Render(t)[0])
  {
    hide RenderElements, RenderMembers, ValidNumber, NumberText, TooBig;
    if t.NumberTree? {
      NumberStarts(t.number);
    }
  }

  lemma StartIsNone(c: byte)
    requires StartsValue(c)
    ensures !IsSpace(c) && c != RIGHT_BRACKET && c != RIGHT_CURLY && c != COMMA && c != 0
  {
  }

  lemma {:induction false} MatchWhole(s: seq<byte>, i: nat, word: seq<byte>)
    requires i <= |s| && 0 !in word && Utf8.At(s, i, word)
    ensures Match(s, i, word) == i + |word|
    decreases |word|
  {
    if word != [] {
      AtFirst(s, i, word);
      assert word == [word[0]] + word[1..];
      Utf8.AtSplit(s, i, [word[0]], word[1..]);
      MatchWhole(s, i + 1, word[1..]);
    }
  }

  lemma {:induction false} MatchedWhole(s: seq<byte>, i: nat, word: seq<byte>)
    requires i <= |s| && 0 !in word && Match(s, i, word) == i + |word|
    ensures i + |word| <= |s| && s[i..i + |word|] == word
    decreases |word|
  {
    if word != [] {
      MatchedWhole(s, i + 1, word[1..]);
    }
  }

  lemma WordParses(s: seq<byte>, i: nat, event: Event, f: Flags)
    requires IsWord(event) && Utf8.At(s, i, WordText(event))
    ensures i < |s| && ParseValue(s, i, f) == Done([event], i + |WordText(event)|)
  {
    hide Match;
    var t := WordText(event);
    AtFirst(s, i, t);
    assert t == [t[0]] + t[1..];
    Utf8.AtSplit(s, i, [t[0]], t[1..]);
    MatchWhole(s, i + 1, t[1..]);
  }

  lemma NumberParses(s: seq<byte>, i: nat, n: Number, f: Flags)
    requires ValidNumber(n) && !TooBig(n, f) && Window(s, i, NumberText(n))
    ensures i < |s| && ParseValue(s, i, f) == Done([NumberMeaning(n)], i + |NumberText(n)|)
  {
    hide ScanNumber, TooBig, ValidNumber, NumberText, NumberMeaning, NumberByte;
    NumberReads(n, f);
    NumberStarts(n);
    AtFirst(s, i, NumberText(n));
    ScanNumberMoves(s, i, NumberText(n), f);
  }

  lemma NumberStarts(n: Number)
    requires ValidNumber(n)
    ensures NumberText(n) != [] && (NumberText(n)[0] == MINUS || IsDigit(NumberText(n)[0]))
  {
    hide ValidExponent, FractionText, ExponentText;
  }

  /* ----- every tree is parsed ----- */

  /** A byte that can stand behind an element: it ends numbers and white space. */
  predicate Delimits(c: byte) { !NumberByte(c) && !IsSpace(c) }

  /** Where the parts of an element stand, when a delimiter follows it. */
  lemma ElementPlaced(s: seq<byte>, i: nat, e: Element, rest: seq<byte>, f: Flags)
    requires ValidElement(e, f) && Utf8.At(s, i, RenderElement(e) + rest) && rest != [] && Delimits(rest[0])
    ensures var a := i + |e.before|; var b := a + |Render(e.value)|; var c := i + |RenderElement(e)|;
            && c < |s| && c == b + |e.after| && Utf8.At(s, a, Render(e.value)) && Utf8.At(s, c, rest)
            && SkipSpace(s, i) == a && StartsValue(Peek(s, a)) && !NumberByte(Peek(s, b)) && SkipSpace(s, b) == c
  {
    hide ValidTree, Render, SkipSpace, NumberByte, StartsValue, IsSpace, Utf8.At;
    var a := i + |e.before|;
    var b := a + |Render(e.value)|;
    Utf8.AtSplit(s, i, RenderElement(e), rest);
    Utf8.AtSplit(s, i, e.before + Render(e.value), e.after);
    Utf8.AtSplit(s, i, e.before, Render(e.value));
    RenderStarts(e.value, f);
    AtFirst(s, a, Render(e.value));
    StartIsNone(Peek(s, a));
    SpacesSkipped(s, i, e.before);
    AtFirst(s, b + |e.after|, rest);
    SpacesSkipped(s, b, e.after);
    if e.after != [] {
      AtFirst(s, b, e.after);
      SpaceEndsNumber(e.after[0]);
    }
  }

  lemma SpaceEndsNumber(c: byte)
    ensures c in {0x20, 0x09, 0x0A, 0x0D} ==> !NumberByte(c)
  {
  }

  /** The end of an array: the bracket, after a trailing comma perhaps. */
  lemma ArrayCloses(s: seq<byte>, i: nat, closing: seq<byte>, f: Flags, count: nat)
    requires ValidClosing(false, closing, f) && Utf8.At(s, i, closing + [RIGHT_BRACKET])
    ensures i <= |s| && MoreElements(s, i, f, count) == Done([EndArray(count)], i + |closing| + 1)
  {
    hide ParseElements, SkipSpace;
    ClosingPlaced(s, i, closing, RIGHT_BRACKET, f);
  }

  lemma ObjectCloses(s: seq<byte>, i: nat, closing: seq<byte>, f: Flags, count: nat)
    requires ValidClosing(false, closing, f) && Utf8.At(s, i, closing + [RIGHT_CURLY])
    ensures i <= |s| && MoreMembers(s, i, f, count) == Done([EndObject(count)], i + |closing| + 1)
  {
    hide ParseMembers, SkipSpace;
    ClosingPlaced(s, i, closing, RIGHT_CURLY, f);
  }

  lemma ClosingPlaced(s: seq<byte>, i: nat, closing: seq<byte>, bracket: byte, f: Flags)
    requires ValidClosing(false, closing, f) && Utf8.At(s, i, closing + [bracket]) && !IsSpace(bracket)
    ensures i < |s| && Peek(s, i + |closing|) == bracket
    ensures closing != [] ==> f.trailingCommas && Peek(s, i) == COMMA && SkipSpace(s, i + 1) == i + |closing|
  {
    hide SkipSpace;
    Utf8.AtSplit(s, i, closing, [bracket]);
    AtFirst(s, i + |closing|, [bracket]);
    if closing != [] {
      AtFirst(s, i, closing);
      assert closing == [closing[0]] + closing[1..];
      Utf8.AtSplit(s, i, [closing[0]], closing[1..]);
      SpacesSkipped(s, i + 1, closing[1..]);
    }
  }

  /** What follows an element or a member in its container. */
  lemma RestDelimits(closing: seq<byte>, bracket: byte, f: Flags)
    requires ValidClosing(false, closing, f) && (bracket == RIGHT_BRACKET || bracket == RIGHT_CURLY)
    ensures Delimits((closing + [bracket])[0]) && Delimits(COMMA) && Delimits(COLON)
  {
  }

  lemma ElementsStep(s: seq<byte>, a: nat, f: Flags, count: nat, c: nat, more: seq<Event>, end: nat)
    requires a <= |s| && c <= |s| && ParseValue(s, a, f).Done? && SkipSpace(s, ParseValue(s, a, f).next) == c
    requires MoreElements(s, c, f, count + 1) == Done(more, end)
    ensures ParseElements(s, a, f, count) == Done(ParseValue(s, a, f).events + more, end)
  {
    hide ParseValue, SkipSpace, MoreElements;
  }

  lemma ElementsComma(s: seq<byte>, c: nat, f: Flags, count: nat)
    requires c < |s| && Peek(s, c) == COMMA && Peek(s, SkipSpace(s, c + 1)) != RIGHT_BRACKET
    ensures MoreElements(s, c, f, count) == ParseElements(s, SkipSpace(s, c + 1), f, count)
  {
    hide ParseElements, SkipSpace;
  }

  /** What follows the first element in the text. */
  function AfterFirst(es: seq<Element>, closing: seq<byte>): seq<byte>
    requires es != []
  {
    if |es| == 1 then closing + [RIGHT_BRACKET] else [COMMA] + RenderElements(es[1..], closing)
  }

  lemma FirstElement(es: seq<Element>, closing: seq<byte>, f: Flags)
    requires es != [] && ValidElements(es, f)
    ensures RenderElements(es, closing) == RenderElement(es[0]) + AfterFirst(es, closing)
    ensures ValidElement(es[0], f) && ValidElements(es[1..], f)
    ensures ElementEvents(es, f) == ElementEvent(es[0], f) + ElementEvents(es[1..], f)
    ensures |es| == 1 ==> ElementEvents(es, f) == ElementEvent(es[0], f)
  {
    hide RenderElement, ElementEvent, ValidElement;
    if |es| == 1 {
      assert es[1..] == [];
      assert ElementEvent(es[0], f) + [] == ElementEvent(es[0], f);
    }
  }

  lemma AfterFirstFacts(es: seq<Element>, closing: seq<byte>, f: Flags)
    requires es != [] && ValidClosing(false, closing, f)
    ensures AfterFirst(es, closing) != [] && Delimits(AfterFirst(es, closing)[0])
    ensures |es| == 1 ==> AfterFirst(es, closing) == closing + [RIGHT_BRACKET]
    ensures |es| > 1 ==> AfterFirst(es, closing) == [COMMA] + RenderElements(es[1..], closing)
  {
    hide ValidClosing, Delimits, RenderElements;
    RestDelimits(closing, RIGHT_BRACKET, f);
  }

  lemma {:induction false} ElementsParse(s: seq<byte>, i: nat, es: seq<Element>, closing: seq<byte>, f: Flags,
                                         count: nat)
    requires es != [] && ValidElements(es, f) && ValidClosing(false, closing, f)
    requires Utf8.At(s, i, RenderElements(es, closing))
    ensures i <= |s| && Peek(s, SkipSpace(s, i)) != RIGHT_BRACKET
    ensures ParseElements(s, SkipSpace(s, i), f, count)
         == Done(ElementEvents(es, f) + [EndArray(count + |es|)], i + |RenderElements(es, closing)|)
    decreases es, 1
  {
    hide ParseValue, ParseElements, MoreElements, SkipSpace, ValidElement, ValidElements, RenderElement, RenderElements;
    hide ElementEvent, ElementEvents, ValidClosing, Delimits, Utf8.At, IsSpace, StartsValue, AfterFirst;
    FirstElement(es, closing, f);
    AfterFirstFacts(es, closing, f);
    var e, rest, c := es[0], AfterFirst(es, closing), i + |RenderElement(es[0])|;
    ElementParses(s, i, e, rest, f);
    StartIsNone(Peek(s, SkipSpace(s, i)));
    var end := c + |rest|;
    if |es| == 1 {
      ArrayCloses(s, c, closing, f, count + 1);
      ElementsStep(s, SkipSpace(s, i), f, count, c, [EndArray(count + 1)], end);
    } else {
      var more := ElementEvents(es[1..], f) + [EndArray(count + |es|)];
      Utf8.AtSplit(s, c, [COMMA], RenderElements(es[1..], closing));
      AtFirst(s, c, [COMMA]);
      ElementsParse(s, c + 1, es[1..], closing, f, count + 1);
      ElementsComma(s, c, f, count + 1);
      ElementsStep(s, SkipSpace(s, i), f, count, c, more, end);
      assert ElementEvent(e, f) + more == ElementEvents(es, f) + [EndArray(count + |es|)];
    }
  }

  /** A value between white space, when a delimiter follows. */
  lemma {:induction false} ElementParses(s: seq<byte>, i: nat, e: Element, rest: seq<byte>, f: Flags)
    requires ValidElement(e, f) && Utf8.At(s, i, RenderElement(e) + rest) && rest != [] && Delimits(rest[0])
    ensures var a := SkipSpace(s, i); var c := i + |RenderElement(e)|;
            && i <= |s| && a < |s| && StartsValue(Peek(s, a)) && ParseValue(s, a, f).Done?
            && ParseValue(s, a, f).events == ElementEvent(e, f)
            && SkipSpace(s, ParseValue(s, a, f).next) == c && Utf8.At(s, c, rest)
    decreases e, 2
  {
    hide ParseValue, SkipSpace, ValidTree, Render, Events, StartsValue, NumberByte;
    ElementPlaced(s, i, e, rest, f);
    TreeParses(s, i + |e.before|, e.value, f);
  }

  lemma MembersStep(s: seq<byte>, a: nat, f: Flags, count: nat, events: seq<Event>, c: nat, more: seq<Event>, end: nat)
    requires a <= |s| && c <= |s| && ParseMember(s, a, f) == Done(events, c)
    requires MoreMembers(s, c, f, count + 1) == Done(more, end)
    ensures ParseMembers(s, a, f, count) == Done(events + more, end)
  {
    hide ParseMember, MoreMembers;
  }

  lemma MembersComma(s: seq<byte>, c: nat, f: Flags, count: nat)
    requires c < |s| && Peek(s, c) == COMMA && Peek(s, SkipSpace(s, c + 1)) != RIGHT_CURLY
    ensures MoreMembers(s, c, f, count) == ParseMembers(s, SkipSpace(s, c + 1), f, count)
  {
    hide ParseMembers, SkipSpace;
  }

  function AfterFirstMember(ms: seq<Pairing>, closing: seq<byte>): seq<byte>
    requires ms != []
  {
    if |ms| == 1 then closing + [RIGHT_CURLY] else [COMMA] + RenderMembers(ms[1..], closing)
  }

  lemma FirstMember(ms: seq<Pairing>, closing: seq<byte>, f: Flags)
    requires ms != [] && ValidMembers(ms, f)
    ensures RenderMembers(ms, closing) == RenderMember(ms[0]) + AfterFirstMember(ms, closing)
    ensures ValidMember(ms[0], f) && ValidMembers(ms[1..], f)
    ensures MemberEvents(ms, f) == MemberEvent(ms[0], f) + MemberEvents(ms[1..], f)
    ensures |ms| == 1 ==> MemberEvents(ms, f) == MemberEvent(ms[0], f)
  {
    hide RenderMember, MemberEvent, ValidMember;
    if |ms| == 1 {
      assert ms[1..] == [];
      assert MemberEvent(ms[0], f) + [] == MemberEvent(ms[0], f);
    }
  }

  lemma AfterFirstMemberFacts(ms: seq<Pairing>, closing: seq<byte>, f: Flags)
    requires ms != [] && ValidClosing(false, closing, f)
    ensures AfterFirstMember(ms, closing) != [] && Delimits(AfterFirstMember(ms, closing)[0])
    ensures |ms| == 1 ==> AfterFirstMember(ms, closing) == closing + [RIGHT_CURLY]
    ensures |ms| > 1 ==> AfterFirstMember(ms, closing) == [COMMA] + RenderMembers(ms[1..], closing)
  {
    hide ValidClosing, Delimits, RenderMembers;
    RestDelimits(closing, RIGHT_CURLY, f);
  }

  lemma {:induction false} MembersParse(s: seq<byte>, i: nat, ms: seq<Pairing>, closing: seq<byte>, f: Flags,
                                        count: nat)
    requires ms != [] && ValidMembers(ms, f) && ValidClosing(false, closing, f)
    requires Utf8.At(s, i, RenderMembers(ms, closing))
    ensures i <= |s| && Peek(s, SkipSpace(s, i)) != RIGHT_CURLY
    ensures ParseMembers(s, SkipSpace(s, i), f, count)
         == Done(MemberEvents(ms, f) + [EndObject(count + |ms|)], i + |RenderMembers(ms, closing)|)
    decreases ms, 1
  {
    hide ParseMember, ParseMembers, MoreMembers, SkipSpace, ValidMember, ValidMembers, RenderMember, RenderMembers;
    hide MemberEvent, MemberEvents, ValidClosing, Delimits, Utf8.At, IsSpace, AfterFirstMember;
    FirstMember(ms, closing, f);
    AfterFirstMemberFacts(ms, closing, f);
    var m, rest, c := ms[0], AfterFirstMember(ms, closing), i + |RenderMember(ms[0])|;
    var a := MemberStart(s, i, m, rest, f);
    if |ms| == 1 {
      ObjectCloses(s, c, closing, f, count + 1);
      MembersStep(s, a, f, count, MemberEvent(m, f), c, [EndObject(count + 1)], c + |rest|);
    } else {
      var more := MemberEvents(ms[1..], f) + [EndObject(count + |ms|)];
      Utf8.AtSplit(s, c, [COMMA], RenderMembers(ms[1..], closing));
      AtFirst(s, c, [COMMA]);
      MembersParse(s, c + 1, ms[1..], closing, f, count + 1);
      MembersComma(s, c, f, count + 1);
      MembersStep(s, a, f, count, MemberEvent(m, f), c, more, c + |rest|);
      assert MemberEvent(m, f) + more == MemberEvents(ms, f) + [EndObject(count + |ms|)];
    }
  }

  lemma {:induction false} MemberStart(s: seq<byte>, i: nat, m: Pairing, rest: seq<byte>, f: Flags) returns (a: nat)
    requires ValidMember(m, f) && Utf8.At(s, i, RenderMember(m) + rest) && rest != [] && Delimits(rest[0])
    ensures var c := i + |RenderMember(m)|;
            && i <= |s| && a == SkipSpace(s, i) <= |s| && Peek(s, a) == QUOTE && c <= |s|
            && ParseMember(s, a, f) == Done(MemberEvent(m, f), c) && Utf8.At(s, c, rest)
    decreases m, 3
  {
    hide ParseMember, SkipSpace, ValidMember, RenderMember, MemberEvent, Delimits;
    MemberParses(s, i, m, rest, f);
    a := SkipSpace(s, i);
  }

  lemma {:induction false} MemberParses(s: seq<byte>, i: nat, m: Pairing, rest: seq<byte>, f: Flags)
    requires ValidMember(m, f) && Utf8.At(s, i, RenderMember(m) + rest) && rest != [] && Delimits(rest[0])
    ensures var a := SkipSpace(s, i); var c := i + |RenderMember(m)|;
            && i <= |s| && Peek(s, a) == QUOTE && ParseMember(s, a, f) == Done(MemberEvent(m, f), c)
                && Utf8.At(s, c, rest)
    decreases m, 2
  {
    hide ParseValue, SkipSpace, ValidElement, RenderElement, ElementEvent, ScanString, StringRest, ValidPieces,
        Delimits;
    hide StringValue, IsSpace, StartsValue, Utf8.At, RenderMember;
    var a := i + |m.before|;
    var k := a + 1 + |StringRest(m.name)|;
    var colon := k + |m.gap|;
    NamePlaced(s, i, m, rest);
    StringReads(s, a + 1, m.name);
    ElementParses(s, colon + 1, m.value, rest, f);
  }

  /** A member's text, cut where the parser stops. */
  lemma MemberCut(m: Pairing, rest: seq<byte>)
    ensures RenderMember(m) + rest
         == m.before + ([QUOTE] + (StringRest(m.name) + (m.gap + ([COLON] + (RenderElement(m.value) + rest)))))
    ensures |RenderMember(m)| == |m.before| + 1 + |StringRest(m.name)| + |m.gap| + 1 + |RenderElement(m.value)|
  {
    hide StringRest, RenderElement;
  }

  /** Where the parts of a member stand. */
  lemma NameCut(s: seq<byte>, i: nat, m: Pairing, rest: seq<byte>)
    requires Utf8.At(s, i, RenderMember(m) + rest)
    ensures var a := i + |m.before|; var k := a + 1 + |StringRest(m.name)|; var colon := k + |m.gap|;
            && Utf8.At(s, i, m.before) && Utf8.At(s, a, [QUOTE]) && Utf8.At(s, a + 1, StringRest(m.name))
            && Utf8.At(s, k, m.gap) && Utf8.At(s, colon, [COLON])
            && Utf8.At(s, colon + 1, RenderElement(m.value) + rest)
            && colon + 1 + |RenderElement(m.value)| == i + |RenderMember(m)|
  {
    hide RenderElement, RenderMember, StringRest, Utf8.At;
    var k := i + |m.before| + 1 + |StringRest(m.name)|;
    var fromColon := [COLON] + (RenderElement(m.value) + rest);
    var fromName := StringRest(m.name) + (m.gap + fromColon);
    MemberCut(m, rest);
    Utf8.AtSplit(s, i, m.before, [QUOTE] + fromName);
    Utf8.AtSplit(s, i + |m.before|, [QUOTE], fromName);
    Utf8.AtSplit(s, i + |m.before| + 1, StringRest(m.name), m.gap + fromColon);
    Utf8.AtSplit(s, k, m.gap, fromColon);
    Utf8.AtSplit(s, k + |m.gap|, [COLON], RenderElement(m.value) + rest);
  }

  /** Where the name and the colon of a member stand, with the white space skipped. */
  lemma NamePlaced(s: seq<byte>, i: nat, m: Pairing, rest: seq<byte>)
    requires Spaces(m.before) && Spaces(m.gap) && Utf8.At(s, i, RenderMember(m) + rest)
    ensures var a := i + |m.before|; var k := a + 1 + |StringRest(m.name)|; var colon := k + |m.gap|;
            && colon < |s| && SkipSpace(s, i) == a && Peek(s, a) == QUOTE && Utf8.At(s, a + 1, StringRest(m.name))
            && SkipSpace(s, k) == colon && Peek(s, colon) == COLON
            && Utf8.At(s, colon + 1, RenderElement(m.value) + rest)
            && colon + 1 + |RenderElement(m.value)| == i + |RenderMember(m)|
  {
    hide SkipSpace, RenderElement, RenderMember, StringRest, Spaces, Utf8.At;
    var a := i + |m.before|;
    var k := a + 1 + |StringRest(m.name)|;
    NameCut(s, i, m, rest);
    AtFirst(s, a, [QUOTE]);
    AtFirst(s, k + |m.gap|, [COLON]);
    SpacesSkipped(s, i, m.before);
    SpacesSkipped(s, k, m.gap);
  }

  /** Every tree is parsed to its end, with its events, when no byte follows that could go on with a number. */
  lemma {:induction false} TreeParses(s: seq<byte>, i: nat, t: Tree, f: Flags)
    requires ValidTree(t, f) && Utf8.At(s, i, Render(t)) && !NumberByte(Peek(s, i + |Render(t)|))
    ensures i < |s| && ParseValue(s, i, f) == Done(Events(t, f), i + |Render(t)|)
    decreases t, 3
  {
    match t
    case Word(event) => WordParses(s, i, event, f);
    case NumberTree(n) => NumberParses(s, i, n, f);
    case TextTree(pieces) => TextParses(s, i, pieces, f);
    case ArrayTree(elements, closing) => ArrayParses(s, i, t, f);
    case ObjectTree(members, closing) => ObjectParses(s, i, t, f);
  }

  lemma TextParses(s: seq<byte>, i: nat, pieces: seq<Piece>, f: Flags)
    requires ValidPieces(pieces) && Utf8.At(s, i, [QUOTE] + StringRest(pieces))
    ensures i < |s|
    ensures ParseValue(s, i, f) == Done([String(StringValue(pieces))], i + 1 + |StringRest(pieces)|)
  {
    hide ScanString, StringRest, StringValue, ValidPieces;
    Utf8.AtSplit(s, i, [QUOTE], StringRest(pieces));
    AtFirst(s, i, [QUOTE]);
    StringReads(s, i + 1, pieces);
  }

  lemma {:induction false} ArrayParses(s: seq<byte>, i: nat, t: Tree, f: Flags)
    requires t.ArrayTree? && ValidTree(t, f) && Utf8.At(s, i, Render(t))
    ensures i < |s| && ParseValue(s, i, f) == Done(Events(t, f), i + |Render(t)|)
    decreases t, 2
  {
    hide ParseElements, SkipSpace, ValidElements, RenderElements, ElementEvents, Utf8.At, Spaces;
    var rest := Render(t)[1..];
    assert Render(t) == [LEFT_BRACKET] + rest;
    Utf8.AtSplit(s, i, [LEFT_BRACKET], rest);
    AtFirst(s, i, [LEFT_BRACKET]);
    if t.elements == [] {
      Utf8.AtSplit(s, i + 1, t.closing, [RIGHT_BRACKET]);
      AtFirst(s, i + 1 + |t.closing|, [RIGHT_BRACKET]);
      SpacesSkipped(s, i + 1, t.closing);
      NoElements(f);
    } else {
      ElementsParse(s, i + 1, t.elements, t.closing, f, 0);
    }
  }

  lemma NoElements(f: Flags)
    ensures ValidElements([], f) && ElementEvents([], f) == [] && ValidMembers([], f) && MemberEvents([], f) == []
  {
  }

  lemma {:induction false} ObjectParses(s: seq<byte>, i: nat, t: Tree, f: Flags)
    requires t.ObjectTree? && ValidTree(t, f) && Utf8.At(s, i, Render(t))
    ensures i < |s| && ParseValue(s, i, f) == Done(Events(t, f), i + |Render(t)|)
    decreases t, 2
  {
    hide ParseMembers, SkipSpace, ValidMembers, RenderMembers, MemberEvents, Utf8.At, Spaces;
    var rest := Render(t)[1..];
    assert Render(t) == [LEFT_CURLY] + rest;
    Utf8.AtSplit(s, i, [LEFT_CURLY], rest);
    AtFirst(s, i, [LEFT_CURLY]);
    if t.members == [] {
      Utf8.AtSplit(s, i + 1, t.closing, [RIGHT_CURLY]);
      AtFirst(s, i + 1 + |t.closing|, [RIGHT_CURLY]);
      SpacesSkipped(s, i + 1, t.closing);
      NoElements(f);
    } else {
      MembersParse(s, i + 1, t.members, t.closing, f, 0);
    }
  }

  /* ----- everything parsed is a tree ----- */

  lemma WordRead(s: seq<byte>, i: nat, f: Flags) returns (event: Event)
    requires i < |s| && s[i] in {LETTER_N, LETTER_T, LETTER_F} && ParseValue(s, i, f).Done?
    ensures IsWord(event) && ParseValue(s, i, f).events == [event]
    ensures WordText(event) == s[i..ParseValue(s, i, f).next]
  {
    hide Match;
    event := if s[i] == LETTER_N then Null else Bool(s[i] == LETTER_T);
    MatchedWhole(s, i + 1, WordText(event)[1..]);
    assert s[i..i + |WordText(event)|] == [s[i]] + s[i + 1..i + |WordText(event)|];
  }

  lemma NumberFound(s: seq<byte>, i: nat, f: Flags) returns (t: Tree)
    requires i < |s| && (s[i] == MINUS || IsDigit(s[i])) && ParseValue(s, i, f).Done?
    requires !NumberByte(Peek(s, ParseValue(s, i, f).next))
    ensures var next := ParseValue(s, i, f).next;
            ValidTree(t, f) && Render(t) == s[i..next] && ParseValue(s, i, f).events == Events(t, f)
  {
    hide ScanNumber, ValidNumber, NumberText, TooBig, NumberMeaning, NumberByte;
    var text := s[i..ParseValue(s, i, f).next];
    ScanNumberMoves(s, i, text, f);
    var n := NumberRead(text, f);
    NumberReads(n, f);
    t := NumberTree(n);
  }

  lemma TextRead(s: seq<byte>, i: nat, f: Flags) returns (t: Tree)
    requires i < |s| && s[i] == QUOTE && ParseValue(s, i, f).Done?
    ensures var next := ParseValue(s, i, f).next;
            ValidTree(t, f) && Render(t) == s[i..next] && ParseValue(s, i, f).events == Events(t, f)
  {
    hide ScanString, ValidPieces, StringRest, StringValue;
    var pieces := StringRead(s, i + 1);
    t := TextTree(pieces);
    assert s[i..ParseValue(s, i, f).next] == [QUOTE] + s[i + 1..ParseValue(s, i, f).next];
  }

  /** What is parsed as a value is the text of a tree with these events. */
  lemma {:induction false} TreeRead(s: seq<byte>, i: nat, f: Flags) returns (t: Tree)
    requires i <= |s| && ParseValue(s, i, f).Done? && !NumberByte(Peek(s, ParseValue(s, i, f).next))
    ensures var next := ParseValue(s, i, f).next;
            ValidTree(t, f) && Render(t) == s[i..next] && Events(t, f) == ParseValue(s, i, f).events
    decreases |s| - i, 1
  {
    ValueStarts(s, i, f);
    hide ParseValue, ValidTree, Render, Events;
    if s[i] == LEFT_BRACKET {
      t := ArrayRead(s, i, f);
    } else if s[i] == LEFT_CURLY {
      t := ObjectRead(s, i, f);
    } else if s[i] == QUOTE {
      t := TextRead(s, i, f);
    } else if s[i] in {LETTER_N, LETTER_T, LETTER_F} {
      var event := WordRead(s, i, f);
      t := Word(event);
      WordTree(event, f);
    } else {
      t := NumberFound(s, i, f);
    }
  }

  lemma WordTree(event: Event, f: Flags)
    requires IsWord(event)
    ensures ValidTree(Word(event), f) && Render(Word(event)) == WordText(event) && Events(Word(event), f) == [event]
  {
  }

  lemma ValueStarts(s: seq<byte>, i: nat, f: Flags)
    requires i <= |s| && ParseValue(s, i, f).Done?
    ensures i < |s| && StartsValue(s[i])
  {
    hide ParseElements, ParseMembers, ScanLiteral, ScanString, ScanRest;
  }

  lemma {:induction false} ArrayRead(s: seq<byte>, i: nat, f: Flags) returns (t: Tree)
    requires i < |s| && s[i] == LEFT_BRACKET && ParseValue(s, i, f).Done?
    ensures var next := ParseValue(s, i, f).next;
            ValidTree(t, f) && Render(t) == s[i..next] && Events(t, f) == ParseValue(s, i, f).events
    decreases |s| - i, 0
  {
    hide ParseElements, SkipSpace, ValidElements, RenderElements, ElementEvents, Spaces;
    var j := SkipSpace(s, i + 1);
    var next := ParseValue(s, i, f).next;
    if Peek(s, j) == RIGHT_BRACKET {
      SkippedSpaces(s, i + 1);
      t := ArrayTree([], s[i + 1..j]);
      NoElements(f);
      assert s[i..next] == [LEFT_BRACKET] + (s[i + 1..j] + [RIGHT_BRACKET]);
    } else {
      var es, closing := ElementsRead(s, i + 1, f, 0);
      t := ArrayTree(es, closing);
      assert s[i..next] == [LEFT_BRACKET] + s[i + 1..next];
    }
  }

  lemma {:induction false} ObjectRead(s: seq<byte>, i: nat, f: Flags) returns (t: Tree)
    requires i < |s| && s[i] == LEFT_CURLY && ParseValue(s, i, f).Done?
    ensures var next := ParseValue(s, i, f).next;
            ValidTree(t, f) && Render(t) == s[i..next] && Events(t, f) == ParseValue(s, i, f).events
    decreases |s| - i, 0
  {
    hide ParseMembers, SkipSpace, ValidMembers, RenderMembers, MemberEvents, Spaces;
    var j := SkipSpace(s, i + 1);
    var next := ParseValue(s, i, f).next;
    if Peek(s, j) == RIGHT_CURLY {
      SkippedSpaces(s, i + 1);
      t := ObjectTree([], s[i + 1..j]);
      NoElements(f);
      assert s[i..next] == [LEFT_CURLY] + (s[i + 1..j] + [RIGHT_CURLY]);
    } else {
      var ms, closing := MembersRead(s, i + 1, f, 0);
      t := ObjectTree(ms, closing);
      assert s[i..next] == [LEFT_CURLY] + s[i + 1..next];
    }
  }

  /** Behind a value comes white space or the byte after it. */
  lemma SkippedDelimits(s: seq<byte>, n: nat)
    requires n <= |s| && !NumberByte(Peek(s, SkipSpace(s, n)))
    ensures !NumberByte(Peek(s, n))
  {
  }

  /** The value at `a`, after the white space at `i`, up to the end of the white space behind it. */
  lemma {:induction false} ElementRead(s: seq<byte>, i: nat, f: Flags) returns (e: Element)
    requires i <= |s|
    requires var v := ParseValue(s, SkipSpace(s, i), f); v.Done? && !NumberByte(Peek(s, SkipSpace(s, v.next)))
    ensures var v := ParseValue(s, SkipSpace(s, i), f); var c := SkipSpace(s, v.next);
            ValidElement(e, f) && RenderElement(e) == s[i..c] && ElementEvent(e, f) == v.events
    decreases |s| - i, 2
  {
    hide ParseValue, ValidTree, Render, Events, Spaces, NumberByte;
    var a := SkipSpace(s, i);
    var n := ParseValue(s, a, f).next;
    var c := SkipSpace(s, n);
    SkippedDelimits(s, n);
    var t := TreeRead(s, a, f);
    SkippedSpaces(s, i);
    SkippedSpaces(s, n);
    e := Element(s[i..a], t, s[n..c]);
    assert s[i..c] == s[i..a] + s[a..n] + s[n..c];
  }

  lemma OneByte(s: seq<byte>, c: nat)
    requires c < |s|
    ensures s[c..c + 1] == [s[c]]
  {
  }

  /** The end of a container in the text: a bracket, or a comma, white space and a bracket. */
  lemma ElementsEnd(s: seq<byte>, c: nat, f: Flags, count: nat) returns (closing: seq<byte>)
    requires c <= |s| && MoreElements(s, c, f, count).Done?
    requires Peek(s, c) == RIGHT_BRACKET || (f.trailingCommas && Peek(s, SkipSpace(s, c + 1)) == RIGHT_BRACKET)
    ensures var r := MoreElements(s, c, f, count);
            ValidClosing(false, closing, f) && s[c..r.next] == closing + [RIGHT_BRACKET]
                && r.events == [EndArray(count)]
  {
    hide ParseElements, SkipSpace;
    if Peek(s, c) == RIGHT_BRACKET {
      closing := [];
      assert c < |s| && s[c] == RIGHT_BRACKET;
      OneByte(s, c);
    } else {
      var j := SkipSpace(s, c + 1);
      SkippedSpaces(s, c + 1);
      closing := s[c..j];
      assert closing[1..] == s[c + 1..j];
      assert s[c..j + 1] == closing + [RIGHT_BRACKET];
    }
  }

  lemma ElementsDone(s: seq<byte>, a: nat, f: Flags, count: nat)
    requires a <= |s| && ParseElements(s, a, f, count).Done?
    ensures ParseValue(s, a, f).Done?
    ensures var v := ParseValue(s, a, f); var c := SkipSpace(s, v.next); var more := MoreElements(s, c, f, count + 1);
            && more.Done? && ParseElements(s, a, f, count) == Done(v.events + more.events, more.next)
            && (Peek(s, c) == RIGHT_BRACKET || Peek(s, c) == COMMA) && c < |s| && a < c
  {
    hide ParseValue, SkipSpace;
  }

  lemma ElementsGoOn(s: seq<byte>, c: nat, f: Flags, count: nat)
    requires c < |s| && Peek(s, c) == COMMA && !(f.trailingCommas && Peek(s, SkipSpace(s, c + 1)) == RIGHT_BRACKET)
    ensures MoreElements(s, c, f, count) == ParseElements(s, SkipSpace(s, c + 1), f, count)
  {
    hide ParseElements, SkipSpace;
  }

  /** One element, and the closing. */
  lemma LastElement(e: Element, closing: seq<byte>, f: Flags)
    requires ValidElement(e, f)
    ensures ValidElements([e], f) && RenderElements([e], closing) == RenderElement(e) + (closing + [RIGHT_BRACKET])
    ensures ElementEvents([e], f) == ElementEvent(e, f)
  {
    FirstElement([e], closing, f);
  }

  /** One element in front of others. */
  lemma MoreElement(e: Element, es: seq<Element>, closing: seq<byte>, f: Flags)
    requires ValidElement(e, f) && es != [] && ValidElements(es, f)
    ensures ValidElements([e] + es, f) && ElementEvents([e] + es, f) == ElementEvent(e, f) + ElementEvents(es, f)
    ensures RenderElements([e] + es, closing) == RenderElement(e) + ([COMMA] + RenderElements(es, closing))
  {
    assert ([e] + es)[1..] == es;
    FirstElement([e] + es, closing, f);
  }

  lemma {:induction false} ElementsRead(s: seq<byte>, i: nat, f: Flags, count: nat)
    returns (es: seq<Element>, closing: seq<byte>)
    requires i <= |s| && ParseElements(s, SkipSpace(s, i), f, count).Done?
    ensures var r := ParseElements(s, SkipSpace(s, i), f, count);
            && es != [] && ValidElements(es, f) && ValidClosing(false, closing, f)
            && RenderElements(es, closing) == s[i..r.next]
            && r.events == ElementEvents(es, f) + [EndArray(count + |es|)]
    decreases |s| - i, 3
  {
    hide ParseValue, ParseElements, MoreElements, SkipSpace, ValidElement, ValidElements, RenderElement, RenderElements;
    hide ElementEvent, ElementEvents, ValidClosing;
    var a := SkipSpace(s, i);
    var next := ParseElements(s, a, f, count).next;
    ElementsDone(s, a, f, count);
    var c := SkipSpace(s, ParseValue(s, a, f).next);
    var e := ElementRead(s, i, f);
    if Peek(s, c) == RIGHT_BRACKET || (f.trailingCommas && Peek(s, SkipSpace(s, c + 1)) == RIGHT_BRACKET) {
      es := [e];
      closing := ElementsEnd(s, c, f, count + 1);
      LastElement(e, closing, f);
      assert s[i..next] == s[i..c] + s[c..next];
    } else {
      ElementsGoOn(s, c, f, count + 1);
      var rest;
      rest, closing := ElementsRead(s, c + 1, f, count + 1);
      es := [e] + rest;
      MoreElement(e, rest, closing, f);
      assert s[i..next] == s[i..c] + ([COMMA] + s[c + 1..next]);
      assert ElementEvent(e, f) + (ElementEvents(rest, f) + [EndArray(count + |es|)])
          == ElementEvents(es, f) + [EndArray(count + |es|)];
    }
  }

  lemma MembersEnd(s: seq<byte>, c: nat, f: Flags, count: nat) returns (closing: seq<byte>)
    requires c <= |s| && MoreMembers(s, c, f, count).Done?
    requires Peek(s, c) == RIGHT_CURLY || (f.trailingCommas && Peek(s, SkipSpace(s, c + 1)) == RIGHT_CURLY)
    ensures var r := MoreMembers(s, c, f, count);
            ValidClosing(false, closing, f) && s[c..r.next] == closing + [RIGHT_CURLY] && r.events == [EndObject(count)]
  {
    hide ParseMembers, SkipSpace;
    if Peek(s, c) == RIGHT_CURLY {
      closing := [];
      assert c < |s| && s[c] == RIGHT_CURLY;
      OneByte(s, c);
    } else {
      var j := SkipSpace(s, c + 1);
      SkippedSpaces(s, c + 1);
      closing := s[c..j];
      assert closing[1..] == s[c + 1..j];
      assert s[c..j + 1] == closing + [RIGHT_CURLY];
    }
  }

  lemma MembersDone(s: seq<byte>, a: nat, f: Flags, count: nat)
    requires a <= |s| && ParseMembers(s, a, f, count).Done?
    ensures ParseMember(s, a, f).Done?
    ensures var m := ParseMember(s, a, f); var c := m.next; var more := MoreMembers(s, c, f, count + 1);
            && more.Done? && ParseMembers(s, a, f, count) == Done(m.events + more.events, more.next)
            && (Peek(s, c) == RIGHT_CURLY || Peek(s, c) == COMMA) && c < |s| && a < c
  {
    hide ParseMember, SkipSpace;
  }

  lemma MembersGoOn(s: seq<byte>, c: nat, f: Flags, count: nat)
    requires c < |s| && Peek(s, c) == COMMA && !(f.trailingCommas && Peek(s, SkipSpace(s, c + 1)) == RIGHT_CURLY)
    ensures MoreMembers(s, c, f, count) == ParseMembers(s, SkipSpace(s, c + 1), f, count)
  {
    hide ParseMembers, SkipSpace;
  }

  lemma LastMember(m: Pairing, closing: seq<byte>, f: Flags)
    requires ValidMember(m, f)
    ensures ValidMembers([m], f) && RenderMembers([m], closing) == RenderMember(m) + (closing + [RIGHT_CURLY])
    ensures MemberEvents([m], f) == MemberEvent(m, f)
  {
    FirstMember([m], closing, f);
  }

  lemma MoreMember(m: Pairing, ms: seq<Pairing>, closing: seq<byte>, f: Flags)
    requires ValidMember(m, f) && ms != [] && ValidMembers(ms, f)
    ensures ValidMembers([m] + ms, f) && MemberEvents([m] + ms, f) == MemberEvent(m, f) + MemberEvents(ms, f)
    ensures RenderMembers([m] + ms, closing) == RenderMember(m) + ([COMMA] + RenderMembers(ms, closing))
  {
    assert ([m] + ms)[1..] == ms;
    FirstMember([m] + ms, closing, f);
  }

  lemma MemberSlices(s: seq<byte>, i: nat, a: nat, k: nat, colon: nat, c: nat)
    requires i <= a < k <= colon < c <= |s| && s[a] == QUOTE && s[colon] == COLON
    ensures s[i..c] == s[i..a] + [QUOTE] + s[a + 1..k] + s[k..colon] + [COLON] + s[colon + 1..c]
  {
    assert s[i..c] == s[i..a] + s[a..k] + s[k..colon] + s[colon..c];
    assert s[a..k] == [s[a]] + s[a + 1..k];
    assert s[colon..c] == [s[colon]] + s[colon + 1..c];
  }

  /** The name, the colon and the value of a member, with the white space around them. */
  lemma {:induction false} MemberRead(s: seq<byte>, i: nat, f: Flags) returns (m: Pairing)
    requires i <= |s| && ParseMember(s, SkipSpace(s, i), f).Done?
    requires !NumberByte(Peek(s, ParseMember(s, SkipSpace(s, i), f).next))
    ensures var r := ParseMember(s, SkipSpace(s, i), f);
            ValidMember(m, f) && RenderMember(m) == s[i..r.next] && MemberEvent(m, f) == r.events
    decreases |s| - i, 2
  {
    hide ParseValue, SkipSpace, ScanString, ValidPieces, StringRest, StringValue, ValidElement, RenderElement, Spaces;
    hide ElementEvent, NumberByte;
    var a := SkipSpace(s, i);
    var k := ScanString(s, a + 1).next;
    var colon := SkipSpace(s, k);
    var c := ParseMember(s, a, f).next;
    SkippedSpaces(s, i);
    SkippedSpaces(s, k);
    var name := StringRead(s, a + 1);
    var value := ElementRead(s, colon + 1, f);
    m := Pairing(s[i..a], name, s[k..colon], value);
    assert s[a] == QUOTE && s[colon] == COLON;
    MemberSlices(s, i, a, k, colon, c);
  }

  lemma {:induction false} MembersRead(s: seq<byte>, i: nat, f: Flags, count: nat)
    returns (ms: seq<Pairing>, closing: seq<byte>)
    requires i <= |s| && ParseMembers(s, SkipSpace(s, i), f, count).Done?
    ensures var r := ParseMembers(s, SkipSpace(s, i), f, count);
            && ms != [] && ValidMembers(ms, f) && ValidClosing(false, closing, f)
            && RenderMembers(ms, closing) == s[i..r.next]
            && r.events == MemberEvents(ms, f) + [EndObject(count + |ms|)]
    decreases |s| - i, 3
  {
    hide ParseMember, ParseMembers, MoreMembers, SkipSpace, ValidMember, ValidMembers, RenderMember, RenderMembers;
    hide MemberEvent, MemberEvents, ValidClosing;
    var a := SkipSpace(s, i);
    var next := ParseMembers(s, a, f, count).next;
    MembersDone(s, a, f, count);
    var c := ParseMember(s, a, f).next;
    var m := MemberRead(s, i, f);
    if Peek(s, c) == RIGHT_CURLY || (f.trailingCommas && Peek(s, SkipSpace(s, c + 1)) == RIGHT_CURLY) {
      ms := [m];
      closing := MembersEnd(s, c, f, count + 1);
      LastMember(m, closing, f);
      assert s[i..next] == s[i..c] + s[c..next];
    } else {
      MembersGoOn(s, c, f, count + 1);
      var rest;
      rest, closing := MembersRead(s, c + 1, f, count + 1);
      ms := [m] + rest;
      MoreMember(m, rest, closing, f);
      assert s[i..next] == s[i..c] + ([COMMA] + s[c + 1..next]);
      assert MemberEvent(m, f) + (MemberEvents(rest, f) + [EndObject(count + |ms|)])
          == MemberEvents(ms, f) + [EndObject(count + |ms|)];
    }
  }

  /* ----- documents ----- */

  /** The text begins with the document, and then ends. */
  predicate IsDocument(s: seq<byte>, doc: Element, f: Flags) {
    ValidElement(doc, f) && Utf8.At(s, 0, RenderElement(doc)) && Peek(s, |RenderElement(doc)|) == 0
  }

  /** A document is accepted, with its events. */
  lemma DocumentParses(s: seq<byte>, doc: Element, f: Flags)
    requires !f.stopWhenDone && IsDocument(s, doc, f)
    ensures Parse(s, f) == Accepted(ElementEvent(doc, f), |RenderElement(doc)|)
  {
    hide ParseValue, SkipSpace, ValidTree, Render, Events, Utf8.At;
    var a := |doc.before|;
    var b := a + |Render(doc.value)|;
    Utf8.AtSplit(s, 0, doc.before + Render(doc.value), doc.after);
    Utf8.AtSplit(s, 0, doc.before, Render(doc.value));
    RenderStarts(doc.value, f);
    AtFirst(s, a, Render(doc.value));
    StartIsNone(Peek(s, a));
    SpacesSkipped(s, 0, doc.before);
    SpacesSkipped(s, b, doc.after);
    SkippedDelimits(s, b);
    TreeParses(s, a, doc.value, f);
  }

  /** What is accepted is a document with these events. */
  lemma DocumentRead(s: seq<byte>, f: Flags) returns (doc: Element)
    requires !f.stopWhenDone && Parse(s, f).Accepted?
    ensures IsDocument(s, doc, f) && Parse(s, f) == Accepted(ElementEvent(doc, f), |RenderElement(doc)|)
  {
    hide ParseValue, SkipSpace, ValidElement, RenderElement, ElementEvent;
    doc := ElementRead(s, 0, f);
  }

  /**
   * The language of the parser: a text is accepted if and only if it is white space, the text of a
   * tree and white space. Its events are those of the tree, whichever tree it is the text of.
   */
  lemma Language(s: seq<byte>, f: Flags)
    requires !f.stopWhenDone
    ensures Parse(s, f).Accepted? <==> exists doc: Element :: IsDocument(s, doc, f)
    ensures forall doc: Element :: IsDocument(s, doc, f) ==>
              Parse(s, f) == Accepted(ElementEvent(doc, f), |RenderElement(doc)|)
  {
    hide Parse, ValidElement, RenderElement, ElementEvent;
    if Parse(s, f).Accepted? {
      var doc := DocumentRead(s, f);
    }
    forall doc: Element | IsDocument(s, doc, f)
      ensures Parse(s, f) == Accepted(ElementEvent(doc, f), |RenderElement(doc)|)
    {
      DocumentParses(s, doc, f);
    }
  }

  /** The text begins with white space and a value, and with no longer number. */
  predicate BeginsWith(s: seq<byte>, doc: Element, f: Flags) {
    && ValidElement(doc, f) && doc.after == [] && Utf8.At(s, 0, RenderElement(doc))
    && !NumberByte(Peek(s, |RenderElement(doc)|))
  }

  lemma ValueParses(s: seq<byte>, doc: Element, f: Flags)
    requires f.stopWhenDone && BeginsWith(s, doc, f)
    ensures Parse(s, f) == Accepted(ElementEvent(doc, f), |RenderElement(doc)|)
  {
    hide ParseValue, SkipSpace, ValidTree, Render, Events, Utf8.At;
    var a := |doc.before|;
    assert doc.before + Render(doc.value) + doc.after == doc.before + Render(doc.value);
    Utf8.AtSplit(s, 0, doc.before, Render(doc.value));
    RenderStarts(doc.value, f);
    AtFirst(s, a, Render(doc.value));
    StartIsNone(Peek(s, a));
    SpacesSkipped(s, 0, doc.before);
    TreeParses(s, a, doc.value, f);
  }

  lemma ValueRead(s: seq<byte>, f: Flags) returns (doc: Element)
    requires f.stopWhenDone && Parse(s, f).Accepted? && !NumberByte(Peek(s, Parse(s, f).end))
    ensures BeginsWith(s, doc, f)
  {
    hide ParseValue, SkipSpace, ValidTree, Render, Events, NumberByte, Spaces;
    var a := SkipSpace(s, 0);
    var t := TreeRead(s, a, f);
    SkippedSpaces(s, 0);
    NoSpaces();
    doc := Element(s[0..a], t, []);
    var end := Parse(s, f).end;
    assert s[0..end] == s[0..a] + s[a..end] + [];
  }

  lemma NoSpaces()
    ensures Spaces([])
  {
  }

  /** The parser that stops when the root is read accepts what begins with a value. */
  lemma LanguageOfFirst(s: seq<byte>, f: Flags)
    requires f.stopWhenDone
    ensures Parse(s, f).Accepted? && !NumberByte(Peek(s, Parse(s, f).end)) <==>
        exists doc: Element :: BeginsWith(s, doc, f)
    ensures forall doc: Element :: BeginsWith(s, doc, f) ==>
              Parse(s, f) == Accepted(ElementEvent(doc, f), |RenderElement(doc)|)
  {
    hide Parse, ValidElement, RenderElement, ElementEvent, NumberByte;
    if Parse(s, f).Accepted? && !NumberByte(Peek(s, Parse(s, f).end)) {
      var doc := ValueRead(s, f);
    }
    forall doc: Element | BeginsWith(s, doc, f)
      ensures Parse(s, f) == Accepted(ElementEvent(doc, f), |RenderElement(doc)|)
    {
      ValueParses(s, doc, f);
    }
  }
}
