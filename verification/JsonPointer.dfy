/**
 * JSON Pointer: the parser of its two text forms, plain and URI fragment, and the printer of both.
 */
module JsonPointer {
  import opened Bytes
  import opened JsonText
  import Utf8

  const TILDE: byte := 0x7E
  const PERCENT: byte := 0x25
  const HASH: byte := 0x23
  const UNDERSCORE: byte := 0x5F
  const LETTER_Z: byte := 0x7A
  const CAPITAL_Z: byte := 0x5A

  const INVALID_INDEX: nat := 0xFFFF_FFFF

  datatype Token = Token(name: seq<byte>, index: nat)

  datatype PointerError = MustBeginWithSolidus | InvalidEscape | InvalidPercentEncoding | MustPercentEncode

  datatype Parsed = Tokens(tokens: seq<Token>) | Failed(code: PointerError, offset: nat)

  /* ----- index tokens ----- */

  predicate AllDigits(name: seq<byte>) {
    forall k | 0 <= k < |name| :: IsDigit(name[k])
  }

  /** Decimal digits in a 32-bit accumulator; a step that gets smaller makes the index invalid. */
  function IndexFrom(name: seq<byte>, j: nat, n: nat): nat
    requires AllDigits(name) && n < WORD
    decreases |name| - j
  {
    if j >= |name| then n
    else
      var m := (n * 10 + (name[j] - ZERO)) % WORD;
      if m < n then INVALID_INDEX else IndexFrom(name, j + 1, m)
  }

  function IndexOf(name: seq<byte>): nat {
    if name == [] || !AllDigits(name) || (|name| > 1 && name[0] == ZERO) then INVALID_INDEX
    else IndexFrom(name, 0, 0)
  }

  function MakeToken(name: seq<byte>): Token { Token(name, IndexOf(name)) }

  /* ----- parsing ----- */

  /** Whether a URI fragment must write the character as percent-encoded bytes. */
  predicate NeedPercentEncode(c: byte) {
    !(IsDigit(c) || CAPITAL_A <= c <= CAPITAL_Z || LETTER_A <= c <= LETTER_Z ||
      c == MINUS || c == DOT || c == UNDERSCORE || c == TILDE)
  }

  /** The byte written as a percent sign and two hexadecimal digits at `i`. */
  function Triple(s: seq<byte>, i: nat): Option<byte> {
    if i + 3 <= |s| && s[i] == PERCENT && HexDigit(s[i + 1]).Some? && HexDigit(s[i + 2]).Some?
    then Some(HexDigit(s[i + 1]).value * 16 + HexDigit(s[i + 2]).value)
    else None
  }

  /** The bytes of the triples that follow one another from `i` on. */
  function Triples(s: seq<byte>, i: nat): seq<byte>
    decreases |s| - i
  {
    match Triple(s, i)
    case None => []
    case Some(b) => [b] + Triples(s, i + 3)
  }

  /** What one round of the parser's inner loop puts into the name, and where it goes on. */
  datatype Unit = Unit(bytes: seq<byte>, next: nat) | BadUnit(code: PointerError, offset: nat)

  /** A character with its escape, if it is a tilde; `i` is past the character. */
  function EscapeUnit(s: seq<byte>, i: nat, c: byte): Unit {
    if c != TILDE then Unit([c], i)
    else if i < |s| && s[i] == ZERO then Unit([TILDE], i + 1)
    else if i < |s| && s[i] == ZERO + 1 then Unit([SLASH], i + 1)
    else BadUnit(InvalidEscape, i)
  }

  /** One UTF-8 sequence of percent-encoded bytes. A single byte goes on to the test for an escape. */
  function PercentUnit(s: seq<byte>, i: nat): Unit {
    var run := Triples(s, i);
    var v := Utf8.Validate(run, 0);
    if !v.ok || |v.copied| > |run| then BadUnit(InvalidPercentEncoding, i)
    else if |v.copied| == 1 then EscapeUnit(s, i + 3, v.copied[0])
    else Unit(v.copied, i + 3 * |v.copied|)
  }

  function UnitAt(s: seq<byte>, i: nat, uri: bool): (u: Unit)
    requires i < |s|
    ensures u.Unit? ==> u.next > i
  {
    if uri && s[i] == PERCENT then PercentUnit(s, i)
    else if uri && NeedPercentEncode(s[i]) then BadUnit(MustPercentEncode, i)
    else EscapeUnit(s, i + 1, s[i])
  }

  function Prefixed(bytes: seq<byte>, rest: Unit): Unit {
    if rest.Unit? then Unit(bytes + rest.bytes, rest.next) else rest
  }

  /** The name that starts at `i`, up to the next solidus or the end. */
  function Name(s: seq<byte>, i: nat, uri: bool): Unit
    decreases |s| - i
  {
    if i >= |s| || s[i] == SLASH then Unit([], i)
    else
      var u := UnitAt(s, i, uri);
      if u.BadUnit? then u else Prefixed(u.bytes, Name(s, u.next, uri))
  }

  lemma {:induction false} NameNext(s: seq<byte>, i: nat, uri: bool)
    ensures Name(s, i, uri).Unit? ==> Name(s, i, uri).next >= i
    decreases |s| - i
  {
    if i < |s| && s[i] != SLASH && UnitAt(s, i, uri).Unit? {
      NameNext(s, UnitAt(s, i, uri).next, uri);
    }
  }

  function ParseTokens(s: seq<byte>, i: nat, uri: bool): Parsed
    decreases |s| - i
  {
    if i >= |s| then Tokens([])
    else
      var u := Name(s, i + 1, uri);
      NameNext(s, i + 1, uri);
      if u.BadUnit? then Failed(u.code, u.offset)
      else
        match ParseTokens(s, u.next, uri)
        case Tokens(rest) => Tokens([MakeToken(u.bytes)] + rest)
        case Failed(code, offset) => Failed(code, offset)
  }

  /** The whole text; a NUL follows it. */
  function Parse(s: seq<byte>): Parsed {
    var uri := Peek(s, 0) == HASH;
    var i := if uri then 1 else 0;
    if i != |s| && s[i] != SLASH then Failed(MustBeginWithSolidus, i) else ParseTokens(s, i, uri)
  }

  /* ----- printing ----- */

  function HexOf(n: nat): byte
    requires n < 16
  {
    if n < 10 then ZERO + n else CAPITAL_A + (n - 10)
  }

  function Percents(bytes: seq<byte>): seq<byte> {
    if bytes == [] then []
    else [PERCENT, HexOf(bytes[0] / 16), HexOf(bytes[0] % 16)] + Percents(bytes[1..])
  }

  /** What the printer writes for the character at `j`, and where it goes on. */
  function PrintUnit(name: seq<byte>, j: nat, uri: bool): Option<seq<byte>>
    requires j < |name|
  {
    var c := name[j];
    if c == TILDE then Some([TILDE, ZERO])
    else if c == SLASH then Some([TILDE, ZERO + 1])
    else if uri && NeedPercentEncode(c) then
      var v := Utf8.Validate(name, j);
      if !v.ok || v.copied == [] then None else Some(Percents(v.copied))
    else Some([c])
  }

  function UnitEnd(name: seq<byte>, j: nat, uri: bool): nat
    requires j < |name|
  {
    if uri && NeedPercentEncode(name[j]) && name[j] != SLASH then j + |Utf8.Validate(name, j).copied| else j + 1
  }

  /** The name from `j` on; none where a character to be percent-encoded is not UTF-8. */
  function PrintName(name: seq<byte>, j: nat, uri: bool): Option<seq<byte>>
    decreases |name| - j
  {
    if j >= |name| then Some([])
    else
      match PrintUnit(name, j, uri)
      case None => None
      case Some(t) => PrependTo(t, PrintName(name, UnitEnd(name, j, uri), uri))
  }

  function PrependTo(a: seq<byte>, b: Option<seq<byte>>): Option<seq<byte>> {
    match b
    case None => None
    case Some(t) => Some(a + t)
  }

  function PrintNames(names: seq<seq<byte>>, uri: bool): Option<seq<byte>> {
    if names == [] then Some([])
    else
      match PrintName(names[0], 0, uri)
      case None => None
      case Some(t) => PrependTo([SLASH] + t, PrintNames(names[1..], uri))
  }

  function Stringify(names: seq<seq<byte>>, uri: bool): Option<seq<byte>> {
    if uri then PrependTo([HASH], PrintNames(names, true)) else PrintNames(names, false)
  }

  /* ----- printing and parsing again ----- */

  function MakeTokens(names: seq<seq<byte>>): seq<Token> {
    if names == [] then [] else [MakeToken(names[0])] + MakeTokens(names[1..])
  }

  lemma HexOfDigit(n: nat)
    requires n < 16
    ensures HexDigit(HexOf(n)) == Some(n)
  {
  }

  lemma TriplePrinted(s: seq<byte>, i: nat, b: byte)
    requires Utf8.At(s, i, [PERCENT, HexOf(b / 16), HexOf(b % 16)])
    ensures Triple(s, i) == Some(b)
  {
    hide HexOf, HexDigit;
    Utf8.AtPeek(s, i, [PERCENT, HexOf(b / 16), HexOf(b % 16)]);
    assert Peek(s, i + 0) == PERCENT && Peek(s, i + 1) == HexOf(b / 16) && Peek(s, i + 2) == HexOf(b % 16);
    HexOfDigit(b / 16);
    HexOfDigit(b % 16);
  }

  lemma {:induction false} TriplesPrinted(s: seq<byte>, i: nat, e: seq<byte>)
    requires Utf8.At(s, i, Percents(e))
    ensures Utf8.At(Triples(s, i), 0, e) && |Percents(e)| == 3 * |e|
    decreases |e|
  {
    hide HexOf, HexDigit, Triple;
    if e != [] {
      var first := [PERCENT, HexOf(e[0] / 16), HexOf(e[0] % 16)];
      Utf8.AtSplit(s, i, first, Percents(e[1..]));
      TriplePrinted(s, i, e[0]);
      TriplesPrinted(s, i + 3, e[1..]);
      var rest := Triples(s, i + 3);
      assert Triples(s, i)[0..|e|] == [e[0]] + rest[0..|e| - 1];
    }
  }

  /** Where validation accepts, it copies a part of the input that validates by itself. */
  lemma ValidatedPart(name: seq<byte>, j: nat)
    requires j < |name| && Utf8.Validate(name, j).ok
    ensures var e := Utf8.Validate(name, j).copied;
            && 1 <= |e| && Utf8.At(name, j, e) && e[0] == name[j]
            && forall t: seq<byte> :: Utf8.At(t, 0, e) ==> Utf8.Validate(t, 0).ok && Utf8.Validate(t, 0).copied == e
  {
    hide Utf8.Validate, Utf8.Encode;
    var cp := Utf8.ValidatedScalar(name, j);
    var e := Utf8.Validate(name, j).copied;
    Utf8.ValidateAgreesWithDecode(name, j);
    Utf8.AtPeek(name, j, Utf8.Encode(cp));
    assert e[0] == Peek(name, j + 0);
    assert e == Utf8.Encode(cp);
    forall t: seq<byte> | Utf8.At(t, 0, e) ensures Utf8.Validate(t, 0).ok && Utf8.Validate(t, 0).copied == e {
      Utf8.ValidateEncoded(t, 0, cp);
      Utf8.ValidateAgreesWithDecode(t, 0);
      Utf8.AtPeek(t, 0, e);
      var c := Utf8.Validate(t, 0).copied;
      forall k | 0 <= k < |e| ensures c[k] == e[k] {
        assert c[k] == Peek(t, 0 + k) == e[k];
      }
    }
  }

  /** The parser reads back what the printer writes for one character. */
  lemma UnitRoundTrip(name: seq<byte>, j: nat, uri: bool, s: seq<byte>, i: nat)
    requires j < |name| && PrintUnit(name, j, uri).Some?
    requires Utf8.At(s, i, PrintUnit(name, j, uri).value)
    ensures var p := PrintUnit(name, j, uri).value; var k := UnitEnd(name, j, uri);
            && j < k <= |name| && i < |s| && s[i] != SLASH && |p| > 0
            && UnitAt(s, i, uri) == Unit(name[j..k], i + |p|)
  {
    hide Utf8.Validate, Triples, HexDigit, Percents;
    var p := PrintUnit(name, j, uri).value;
    Utf8.AtPeek(s, i, p);
    if uri && NeedPercentEncode(name[j]) && name[j] != SLASH {
      PercentRoundTrip(name, j, s, i);
    } else {
      assert p[0] == Peek(s, i + 0);
      assert |p| == 2 ==> p[1] == Peek(s, i + 1);
    }
  }

  lemma PercentRoundTrip(name: seq<byte>, j: nat, s: seq<byte>, i: nat)
    requires j < |name| && Utf8.Validate(name, j).ok && NeedPercentEncode(name[j])
    requires Utf8.At(s, i, Percents(Utf8.Validate(name, j).copied))
    ensures var e := Utf8.Validate(name, j).copied;
            && 1 <= |e| && j + |e| <= |name| && |Percents(e)| == 3 * |e|
            && i < |s| && s[i] == PERCENT && PercentUnit(s, i) == Unit(name[j..j + |e|], i + 3 * |e|)
  {
    hide Utf8.Validate, Triples, HexDigit;
    var e := Utf8.Validate(name, j).copied;
    ValidatedPart(name, j);
    TriplesPrinted(s, i, e);
    Utf8.AtPeek(s, i, Percents(e));
    assert Peek(s, i + 0) == PERCENT;
    assert Utf8.At(Triples(s, i), 0, e);
    assert name[j..j + |e|] == e;
  }

  /** A printed name, followed by a solidus or the end, is read back from any character on. */
  lemma {:induction false} NameRoundTrip(name: seq<byte>, j: nat, uri: bool, s: seq<byte>, i: nat)
    requires j <= |name| && PrintName(name, j, uri).Some?
    requires Utf8.At(s, i, PrintName(name, j, uri).value)
    requires var end := i + |PrintName(name, j, uri).value|; end == |s| || s[end] == SLASH
    ensures Name(s, i, uri) == Unit(name[j..], i + |PrintName(name, j, uri).value|)
    decreases |name| - j
  {
    hide PrintUnit, UnitEnd, UnitAt;
    if j < |name| {
      var p, k := PrintUnit(name, j, uri).value, UnitEnd(name, j, uri);
      var rest := PrintName(name, k, uri);
      Utf8.AtSplit(s, i, p, rest.value);
      UnitRoundTrip(name, j, uri, s, i);
      NameRoundTrip(name, k, uri, s, i + |p|);
      assert name[j..] == name[j..k] + name[k..];
    }
  }

  lemma {:induction false} TokensRoundTrip(names: seq<seq<byte>>, uri: bool, s: seq<byte>, i: nat)
    requires PrintNames(names, uri).Some? && Utf8.At(s, i, PrintNames(names, uri).value)
    requires i + |PrintNames(names, uri).value| == |s|
    ensures ParseTokens(s, i, uri) == Tokens(MakeTokens(names))
    ensures names != [] ==> i < |s| && s[i] == SLASH
    decreases |names|
  {
    hide PrintName, Name, MakeToken;
    if names != [] {
      var t, rest := PrintName(names[0], 0, uri).value, PrintNames(names[1..], uri).value;
      Utf8.AtSplit(s, i, [SLASH] + t, rest);
      Utf8.AtSplit(s, i, [SLASH], t);
      Utf8.AtPeek(s, i, [SLASH]);
      assert Peek(s, i + 0) == SLASH;
      TokensRoundTrip(names[1..], uri, s, i + 1 + |t|);
      NameRoundTrip(names[0], 0, uri, s, i + 1);
      assert names[0][0..] == names[0];
    }
  }

  /** Parsing a printed pointer gives its tokens back, in either form, whenever it can be printed. */
  lemma RoundTrip(names: seq<seq<byte>>, uri: bool)
    requires Stringify(names, uri).Some?
    ensures Parse(Stringify(names, uri).value) == Tokens(MakeTokens(names))
  {
    hide ParseTokens, MakeTokens;
    var s := Stringify(names, uri).value;
    var t := PrintNames(names, uri).value;
    var i := if uri then 1 else 0;
    assert s[i..i + |t|] == t;
    TokensRoundTrip(names, uri, s, i);
    if !uri && s != [] {
      assert names != [];
    }
  }

  /* ----- which pointers can be printed ----- */

  lemma AsciiValid(name: seq<byte>, j: nat)
    requires j < |name| && name[j] < 0x80
    ensures Utf8.Validate(name, j) == Utf8.Validated(true, [name[j]])
  {
  }

  lemma {:induction false} PrintNameUri(name: seq<byte>, j: nat)
    requires j <= |name|
    ensures PrintName(name, j, true).Some? <==> Utf8.ValidFrom(name, j)
    decreases |name| - j
  {
    hide Utf8.Validate, Percents;
    if j < |name| {
      if name[j] < 0x80 {
        AsciiValid(name, j);
      }
      if Utf8.Validate(name, j).ok {
        ValidatedPart(name, j);
        PrintNameUri(name, j + |Utf8.Validate(name, j).copied|);
      }
    }
  }

  lemma {:induction false} PrintNamePlain(name: seq<byte>, j: nat)
    requires j <= |name|
    ensures PrintName(name, j, false).Some?
    decreases |name| - j
  {
    if j < |name| {
      PrintNamePlain(name, j + 1);
    }
  }

  /** The plain form prints every pointer; the URI fragment form exactly those whose names are UTF-8. */
  lemma {:induction false} PrintableIff(names: seq<seq<byte>>, uri: bool)
    ensures PrintNames(names, uri).Some? <==> uri ==> forall n | n in names :: Utf8.IsEncoding(n)
    decreases |names|
  {
    hide PrintName, Utf8.IsEncoding;
    if names != [] {
      if uri {
        PrintNameUri(names[0], 0);
        Utf8.ValidIffEncoded(names[0]);
      } else {
        PrintNamePlain(names[0], 0);
      }
      PrintableIff(names[1..], uri);
    }
  }

  /* ----- the plain form is canonical ----- */

  lemma {:induction false} PlainTail(a: seq<byte>, b: seq<byte>, j: nat)
    requires j <= |b|
    ensures PrintName(a + b, |a| + j, false) == PrintName(b, j, false)
    decreases |b| - j
  {
    if j < |b| {
      PlainTail(a, b, j + 1);
    }
  }

  /** A name parsed from the plain form is printed as the text it was parsed from. */
  lemma {:induction false} PlainNameCanonical(s: seq<byte>, i: nat)
    requires i <= |s| && Name(s, i, false).Unit?
    ensures var u := Name(s, i, false);
            && i <= u.next <= |s| && (u.next < |s| ==> s[u.next] == SLASH)
            && PrintName(u.bytes, 0, false) == Some(s[i..u.next])
    decreases |s| - i
  {
    hide UnitAt, PrintUnit, UnitEnd;
    if i < |s| && s[i] != SLASH {
      var u := UnitAt(s, i, false);
      PlainUnit(s, i);
      PlainNameCanonical(s, u.next);
      var rest := Name(s, u.next, false);
      PlainTail(u.bytes, rest.bytes, 0);
      PlainUnitPrinted(s, i, u.bytes + rest.bytes);
      assert s[i..rest.next] == s[i..u.next] + s[u.next..rest.next];
    } else {
      assert s[i..i] == [];
    }
  }

  lemma PlainUnit(s: seq<byte>, i: nat)
    requires i < |s| && UnitAt(s, i, false).Unit?
    ensures |UnitAt(s, i, false).bytes| == 1 && UnitAt(s, i, false).next <= |s|
  {
  }

  lemma PlainUnitPrinted(s: seq<byte>, i: nat, name: seq<byte>)
    requires i < |s| && s[i] != SLASH && UnitAt(s, i, false).Unit?
    requires name != [] && UnitAt(s, i, false).bytes == [name[0]]
    ensures PrintUnit(name, 0, false) == Some(s[i..UnitAt(s, i, false).next]) && UnitEnd(name, 0, false) == 1
  {
    if s[i] == TILDE {
      assert s[i..i + 2] == [s[i], s[i + 1]];
    } else {
      assert s[i..i + 1] == [s[i]];
    }
  }

  function Names(tokens: seq<Token>): seq<seq<byte>> {
    if tokens == [] then [] else [tokens[0].name] + Names(tokens[1..])
  }

  lemma {:induction false} PlainTokensCanonical(s: seq<byte>, i: nat)
    requires i <= |s| && (i < |s| ==> s[i] == SLASH)
    requires ParseTokens(s, i, false).Tokens?
    ensures PrintNames(Names(ParseTokens(s, i, false).tokens), false) == Some(s[i..])
    decreases |s| - i
  {
    hide Name, PrintName;
    if i < |s| {
      var u := Name(s, i + 1, false);
      PlainNameCanonical(s, i + 1);
      PlainTokensCanonical(s, u.next);
      var rest := ParseTokens(s, u.next, false).tokens;
      assert ([MakeToken(u.bytes)] + rest)[1..] == rest;
      assert ([u.bytes] + Names(rest))[1..] == Names(rest);
      assert s[i..] == [SLASH] + s[i + 1..u.next] + s[u.next..];
    } else {
      assert s[i..] == [];
    }
  }

  /** A text in the plain form that parses is the one that its tokens print as. */
  lemma PlainCanonical(s: seq<byte>)
    requires Peek(s, 0) != HASH && Parse(s).Tokens?
    ensures Stringify(Names(Parse(s).tokens), false) == Some(s)
  {
    PlainTokensCanonical(s, 0);
    assert s[0..] == s;
  }

  /** Every tilde from `i` on starts one of the two escapes. */
  predicate Escaped(s: seq<byte>, i: nat) {
    forall k | i <= k < |s| && s[k] == TILDE :: k + 1 < |s| && (s[k + 1] == ZERO || s[k + 1] == ZERO + 1)
  }

  /** A name of the plain form is refused only at a tilde that starts no escape, at the byte after it. */
  lemma {:induction false} PlainNameParses(s: seq<byte>, i: nat)
    requires i <= |s|
    ensures var u := Name(s, i, false);
            if u.Unit? then i <= u.next <= |s| && (u.next < |s| ==> s[u.next] == SLASH)
                && (Escaped(s, i) <==> Escaped(s, u.next))
            else !Escaped(s, i) && u.code == InvalidEscape && i < u.offset <= |s| && s[u.offset - 1] == TILDE
    decreases |s| - i
  {
    if i < |s| && s[i] != SLASH {
      var u := UnitAt(s, i, false);
      if u.Unit? {
        PlainNameParses(s, u.next);
      }
    }
  }

  lemma {:induction false} PlainTokensParse(s: seq<byte>, i: nat)
    requires i <= |s| && (i < |s| ==> s[i] == SLASH)
    ensures ParseTokens(s, i, false).Tokens? <==> Escaped(s, i)
    ensures var r := ParseTokens(s, i, false);
            r.Failed? ==> r.code == InvalidEscape && 0 < r.offset <= |s| && s[r.offset - 1] == TILDE
    decreases |s| - i
  {
    hide Name;
    if i < |s| {
      PlainNameParses(s, i + 1);
      var u := Name(s, i + 1, false);
      assert Escaped(s, i) <==> Escaped(s, i + 1);
      if u.Unit? {
        PlainTokensParse(s, u.next);
      }
    }
  }

  /** The plain form parses if and only if it starts with a solidus, or is empty, and every tilde starts an escape. */
  lemma PlainParses(s: seq<byte>)
    requires Peek(s, 0) != HASH
    ensures Parse(s).Tokens? <==> (s == [] || s[0] == SLASH) && Escaped(s, 0)
    ensures s != [] && s[0] != SLASH ==> Parse(s) == Failed(MustBeginWithSolidus, 0)
    ensures Parse(s).Failed? && (s == [] || s[0] == SLASH) ==> Parse(s).code == InvalidEscape
  {
    if s == [] || s[0] == SLASH {
      PlainTokensParse(s, 0);
    }
  }

  /* ----- indexes ----- */

  /** The number that a name writes. */
  function Number(name: seq<byte>): nat
    requires AllDigits(name)
  {
    Decimal(name, 0, |name|)
  }

  predicate Canonical(name: seq<byte>) {
    name != [] && AllDigits(name) && (|name| > 1 ==> name[0] != ZERO)
  }

  lemma Below(n: nat)
    requires n < WORD
    ensures n % WORD == n
  {
  }

  lemma {:induction false} IndexBound(name: seq<byte>, j: nat, n: nat)
    requires AllDigits(name) && n < WORD
    ensures IndexFrom(name, j, n) < WORD
    decreases |name| - j
  {
    if j < |name| {
      IndexBound(name, j + 1, (n * 10 + (name[j] - ZERO)) % WORD);
    }
  }

  lemma {:induction false} IndexIsNumber(name: seq<byte>, j: nat)
    requires AllDigits(name) && j <= |name| && Number(name) < WORD
    ensures Decimal(name, 0, j) < WORD && IndexFrom(name, j, Decimal(name, 0, j)) == Number(name)
    decreases |name| - j
  {
    DecimalMonotone(name, 0, j, |name|);
    if j < |name| {
      DecimalMonotone(name, 0, j + 1, |name|);
      Below(Decimal(name, 0, j + 1));
      IndexIsNumber(name, j + 1);
    }
  }

  /** Only decimal numbers without leading zeros have an index, and it is the number exactly when that has 32 bits. */
  lemma IndexExact(name: seq<byte>)
    ensures !Canonical(name) ==> IndexOf(name) == INVALID_INDEX
    ensures Canonical(name) ==> (IndexOf(name) == Number(name) <==> Number(name) < WORD)
  {
    if Canonical(name) {
      IndexBound(name, 0, 0);
      if Number(name) < WORD {
        IndexIsNumber(name, 0);
      }
    }
  }

  /** Up to nine digits a number has 32 bits. */
  lemma NineDigits(name: seq<byte>)
    requires AllDigits(name) && |name| <= 9
    ensures Number(name) < 1_000_000_000 < INVALID_INDEX
  {
    DecimalBound(name, 0, |name|);
    Pow10Monotone(|name|, 9);
    assert Pow10(5) == 100_000;
    assert Pow10(9) == 1_000_000_000;
  }

  /** As long as the number so far has 32 bits, the accumulator holds it. */
  lemma {:induction false} IndexSoFar(name: seq<byte>, j: nat)
    requires AllDigits(name) && j <= |name| && Decimal(name, 0, j) < WORD
    ensures IndexFrom(name, 0, 0) == IndexFrom(name, j, Decimal(name, 0, j))
  {
    if j > 0 {
      DecimalMonotone(name, 0, j - 1, j);
      IndexSoFar(name, j - 1);
      Below(Decimal(name, 0, j));
    }
  }

  const LONG_NAME: seq<byte> := [0x36, 0x30, 0x30, 0x30, 0x30, 0x30, 0x30, 0x30, 0x30, 0x30]

  /** The digits 6000000000. */
  lemma LongNumber(j: nat)
    requires j <= 9
    ensures AllDigits(LONG_NAME) && Decimal(LONG_NAME, 0, j) == if j == 0 then 0 else 6 * Pow10(j - 1)
  {
    if j > 0 {
      LongNumber(j - 1);
    }
  }

  lemma LastDigitZero(name: seq<byte>, n: nat)
    requires AllDigits(name) && |name| == 10 && name[9] == ZERO && n < WORD
    ensures Number(name) == Decimal(name, 0, 9) * 10
    ensures var m := n * 10 % WORD; IndexFrom(name, 9, n) == if m < n then INVALID_INDEX else m
  {
  }

  lemma Pow10Of8()
    ensures Pow10(8) == 100_000_000
  {
    assert Pow10(4) == 10_000;
  }

  /** A number beyond 32 bits that the test for wrapping around misses: it gets the index 1705032704. */
  lemma IndexWraps()
    ensures AllDigits(LONG_NAME) && Number(LONG_NAME) == 6_000_000_000 && IndexOf(LONG_NAME) == 1_705_032_704
  {
    hide IndexFrom, Decimal, Pow10, Number;
    LongNumber(9);
    Pow10Of8();
    LastDigitZero(LONG_NAME, 600_000_000);
    IndexSoFar(LONG_NAME, 9);
  }

  lemma LastDigit(m: nat, n: nat, d: nat, e: nat)
    requires d < 10 && e < 10 && m * 10 + d == n * 10 + e
    ensures m == n && d == e
  {
  }

  lemma {:induction false} DecimalOneToOne(a: seq<byte>, b: seq<byte>, n: nat)
    requires AllDigits(a) && AllDigits(b) && n <= |a| && n <= |b| && Decimal(a, 0, n) == Decimal(b, 0, n)
    ensures a[..n] == b[..n]
  {
    if n > 0 {
      LastDigit(Decimal(a, 0, n - 1), Decimal(b, 0, n - 1), a[n - 1] - ZERO, b[n - 1] - ZERO);
      DecimalOneToOne(a, b, n - 1);
      assert a[..n] == a[..n - 1] + [a[n - 1]];
      assert b[..n] == b[..n - 1] + [b[n - 1]];
    }
  }

  lemma {:induction false} LeadingDigit(name: seq<byte>, n: nat)
    requires AllDigits(name) && 0 < n <= |name| && name[0] != ZERO
    ensures Decimal(name, 0, n) >= Pow10(n - 1)
  {
    if n > 1 {
      LeadingDigit(name, n - 1);
    } else {
      assert Decimal(name, 0, 0) == 0;
    }
  }

  lemma Shorter(a: seq<byte>, b: seq<byte>)
    requires Canonical(a) && Canonical(b) && |a| < |b|
    ensures Number(a) < Number(b)
  {
    DecimalBound(a, 0, |a|);
    LeadingDigit(b, |b|);
    Pow10Monotone(|a|, |b| - 1);
  }

  /** A number that a name writes, if it does, has 32 bits. */
  predicate NoLongNumber(name: seq<byte>) {
    AllDigits(name) ==> Number(name) < WORD
  }

  /** Different names share an index only when one of them writes a number beyond 32 bits. */
  lemma IndexOneToOne(a: seq<byte>, b: seq<byte>)
    requires NoLongNumber(a) && NoLongNumber(b) && IndexOf(a) == IndexOf(b) != INVALID_INDEX
    ensures a == b
  {
    IndexExact(a);
    IndexExact(b);
    if |a| < |b| {
      Shorter(a, b);
    } else if |b| < |a| {
      Shorter(b, a);
    } else {
      DecimalOneToOne(a, b, |a|);
      assert a[..|a|] == a && b[..|b|] == b;
    }
  }
}
