/**
 * The language of JSON pointers, by what their texts look like: RFC 6901 with the choices of spelling
 * as pieces of a name, in the plain form and as the fragment of a URI.
 */
module JsonPointerGrammar {
  import opened Bytes
  import Utf8
  import opened JsonText
  import opened JsonPointer
  import JsonGrammar

  /* ----- names ----- */

  /** A byte as it is, an escape of a tilde and a digit, or the percent-encoded bytes of one character. */
  datatype Piece = Direct(b: byte) | Escape(tilde: seq<byte>, digit: byte) | Sequence(triples: seq<seq<byte>>)

  predicate IsTriple(t: seq<byte>) { |t| == 3 && t[0] == 0x25 && JsonGrammar.IsHex(t[1]) && JsonGrammar.IsHex(t[2]) }

  function TripleByte(t: seq<byte>): byte
    requires IsTriple(t)
  {
    16 * JsonGrammar.HexValue(t[1]) + JsonGrammar.HexValue(t[2])
  }

  predicate AllTriples(ts: seq<seq<byte>>) { forall k | 0 <= k < |ts| :: IsTriple(ts[k]) }

  function TripleBytes(ts: seq<seq<byte>>): seq<byte>
    requires AllTriples(ts)
  {
    if ts == [] then [] else [TripleByte(ts[0])] + TripleBytes(ts[1..])
  }

  /** The letters, digits and marks of section 2.3 of RFC 3986. */
  predicate Unreserved(b: byte) {
    0x30 <= b <= 0x39 || 0x41 <= b <= 0x5A || 0x61 <= b <= 0x7A || b in {0x2D, 0x2E, 0x5F, 0x7E}
  }

  ghost predicate IsCharacter(bytes: seq<byte>) { exists cp: Utf8.Scalar :: bytes == Utf8.Encode(cp) }

  ghost predicate ValidPiece(p: Piece, uri: bool) {
    match p
    case Direct(b) => b != 0x2F && b != 0x7E && (uri ==> Unreserved(b))
    case Escape(tilde, digit) =>
      && (digit == 0x30 || digit == 0x31)
      && (tilde == [0x7E] || (uri && IsTriple(tilde) && TripleByte(tilde) == 0x7E))
    case Sequence(ts) => uri && AllTriples(ts) && TripleBytes(ts) != [0x7E] && IsCharacter(TripleBytes(ts))
  }

  function PieceText(p: Piece): seq<byte> {
    match p
    case Direct(b) => [b]
    case Escape(tilde, digit) => tilde + [digit]
    case Sequence(ts) => Concat(ts)
  }

  /** The bytes that the piece stands for. */
  function PieceValue(p: Piece, uri: bool): seq<byte>
    requires ValidPiece(p, uri)
  {
    match p
    case Direct(b) => [b]
    case Escape(_, digit) => if digit == 0x30 then [0x7E] else [0x2F]
    case Sequence(ts) => TripleBytes(ts)
  }

  ghost predicate ValidName(ps: seq<Piece>, uri: bool) { forall k | 0 <= k < |ps| :: ValidPiece(ps[k], uri) }

  function NameText(ps: seq<Piece>): seq<byte> {
    if ps == [] then [] else PieceText(ps[0]) + NameText(ps[1..])
  }

  function NameValue(ps: seq<Piece>, uri: bool): seq<byte>
    requires ValidName(ps, uri)
  {
    if ps == [] then [] else PieceValue(ps[0], uri) + NameValue(ps[1..], uri)
  }

  /* ----- pointers ----- */

  ghost predicate ValidNames(names: seq<seq<Piece>>, uri: bool) {
    forall k | 0 <= k < |names| :: ValidName(names[k], uri)
  }

  /** Every name with a solidus in front. */
  function NamesText(names: seq<seq<Piece>>): seq<byte> {
    if names == [] then [] else [0x2F] + NameText(names[0]) + NamesText(names[1..])
  }

  function NamesValue(names: seq<seq<Piece>>, uri: bool): seq<seq<byte>>
    requires ValidNames(names, uri)
  {
    if names == [] then [] else [NameValue(names[0], uri)] + NamesValue(names[1..], uri)
  }

  /** The text of the names, behind a number sign in a fragment. */
  ghost predicate IsPointer(s: seq<byte>, names: seq<seq<Piece>>, uri: bool) {
    ValidNames(names, uri) && s == (if uri then [0x23] else []) + NamesText(names)
  }

  /* ----- reading pieces ----- */

  lemma UnreservedIs(b: byte)
    ensures NeedPercentEncode(b) <==> !Unreserved(b)
  {
  }

  lemma TripleIs(s: seq<byte>, i: nat)
    ensures i + 3 <= |s| && IsTriple(s[i..i + 3]) ==> Triple(s, i) == Some(TripleByte(s[i..i + 3]))
    ensures i + 3 > |s| || !IsTriple(s[i..i + 3]) ==> Triple(s, i) == None
  {
    hide HexDigit, JsonGrammar.IsHex, JsonGrammar.HexValue;
    if i + 3 <= |s| {
      JsonGrammar.HexDigitIs(s[i + 1]);
      JsonGrammar.HexDigitIs(s[i + 2]);
    }
  }

  lemma {:induction false} TriplesRead(s: seq<byte>, i: nat, ts: seq<seq<byte>>)
    requires AllTriples(ts) && Utf8.At(s, i, Concat(ts))
    ensures Utf8.At(Triples(s, i), 0, TripleBytes(ts)) && |Concat(ts)| == 3 * |ts| == 3 * |TripleBytes(ts)|
    decreases |ts|
  {
    hide IsTriple, Triple, TripleByte;
    if ts != [] {
      FirstTriple(s, i, ts);
      TriplesRead(s, i + 3, ts[1..]);
      var rest := Triples(s, i + 3);
      assert Triples(s, i)[0..|ts|] == [TripleByte(ts[0])] + rest[0..|ts| - 1];
    }
  }

  lemma FirstTriple(s: seq<byte>, i: nat, ts: seq<seq<byte>>)
    requires ts != [] && AllTriples(ts) && Utf8.At(s, i, Concat(ts))
    ensures |ts[0]| == 3 && Triple(s, i) == Some(TripleByte(ts[0])) && Utf8.At(s, i + 3, Concat(ts[1..]))
    ensures i < |s| && s[i] == 0x25
  {
    hide TripleByte, JsonGrammar.IsHex;
    Utf8.AtSplit(s, i, ts[0], Concat(ts[1..]));
    TripleIs(s, i);
    assert s[i..i + 3][0] == s[i];
  }

  /** The encoded bytes of one character are read together. */
  lemma SequenceReads(s: seq<byte>, i: nat, ts: seq<seq<byte>>)
    requires AllTriples(ts) && IsCharacter(TripleBytes(ts)) && Utf8.At(s, i, Concat(ts))
    ensures ts != [] && |Concat(ts)| == 3 * |ts| && |TripleBytes(ts)| == |ts|
    ensures i < |s| && s[i] == 0x25
    ensures var v := Utf8.Validate(Triples(s, i), 0);
            v.ok && v.copied == TripleBytes(ts) && |v.copied| <= |Triples(s, i)|
  {
    hide IsTriple, Triple, TripleByte, Utf8.Validate;
    var cp: Utf8.Scalar :| TripleBytes(ts) == Utf8.Encode(cp);
    TriplesRead(s, i, ts);
    FirstTriple(s, i, ts);
    var run := Triples(s, i);
    Utf8.ValidateEncoded(run, 0, cp);
    CopiedIs(run, cp);
  }

  lemma CopiedIs(run: seq<byte>, cp: Utf8.Scalar)
    requires Utf8.At(run, 0, Utf8.Encode(cp)) && |Utf8.Validate(run, 0).copied| == |Utf8.Encode(cp)|
    ensures Utf8.Validate(run, 0).copied == Utf8.Encode(cp)
  {
    hide Utf8.Validate, Utf8.Encode;
    Utf8.ValidateAgreesWithDecode(run, 0);
    Utf8.AtPeek(run, 0, Utf8.Encode(cp));
    var c := Utf8.Validate(run, 0).copied;
    forall k | 0 <= k < |c| ensures c[k] == Utf8.Encode(cp)[k] {
      assert c[k] == Peek(run, 0 + k);
    }
  }

  /** The tilde is read as one byte, also when it is percent-encoded. */
  lemma TildeReads(s: seq<byte>, i: nat, tilde: seq<byte>, digit: byte, uri: bool)
    requires ValidPiece(Escape(tilde, digit), uri) && Utf8.At(s, i, tilde + [digit])
    ensures i < |s| && s[i] != 0x2F
    ensures UnitAt(s, i, uri) == Unit(if digit == 0x30 then [0x7E] else [0x2F], i + |tilde| + 1)
  {
    hide Utf8.Validate, Triples, TripleByte;
    Utf8.AtSplit(s, i, tilde, [digit]);
    assert s[i + |tilde|..i + |tilde| + 1][0] == s[i + |tilde|];
    assert s[i..i + |tilde|][0] == s[i];
    if tilde != [0x7E] {
      TildeCharacter(tilde);
      assert [tilde][1..] == [] && Concat([tilde]) == tilde;
      SequenceReads(s, i, [tilde]);
    }
  }

  lemma TildeCharacter(tilde: seq<byte>)
    requires IsTriple(tilde) && TripleByte(tilde) == 0x7E
    ensures AllTriples([tilde]) && TripleBytes([tilde]) == [0x7E] && IsCharacter([0x7E])
  {
    assert [tilde][1..] == [];
    var cp: Utf8.Scalar := 0x7E;
    assert Utf8.Encode(cp) == [0x7E];
  }

  /** A piece is read as what it stands for. */
  lemma UnitReads(s: seq<byte>, i: nat, p: Piece, uri: bool)
    requires ValidPiece(p, uri) && Utf8.At(s, i, PieceText(p))
    ensures i < |s| && s[i] != 0x2F
    ensures UnitAt(s, i, uri) == Unit(PieceValue(p, uri), i + |PieceText(p)|)
  {
    hide Utf8.Validate, Triples, IsCharacter, AllTriples, TripleBytes;
    match p
    case Direct(b) =>
      assert s[i..i + 1][0] == s[i];
      UnreservedIs(b);
    case Escape(tilde, digit) => TildeReads(s, i, tilde, digit, uri);
    case Sequence(ts) => SequenceReads(s, i, ts);
  }

  /** A name is read as the bytes its pieces stand for, up to a solidus or the end. */
  lemma {:induction false} NameReads(s: seq<byte>, i: nat, ps: seq<Piece>, uri: bool)
    requires ValidName(ps, uri) && Utf8.At(s, i, NameText(ps))
    requires var end := i + |NameText(ps)|; end == |s| || s[end] == 0x2F
    ensures Name(s, i, uri) == Unit(NameValue(ps, uri), i + |NameText(ps)|)
    decreases |ps|
  {
    hide UnitAt, ValidPiece, PieceValue, PieceText;
    if ps != [] {
      Utf8.AtSplit(s, i, PieceText(ps[0]), NameText(ps[1..]));
      UnitReads(s, i, ps[0], uri);
      NameReads(s, i + |PieceText(ps[0])|, ps[1..], uri);
    }
  }

  lemma {:induction false} NamesRead(s: seq<byte>, i: nat, names: seq<seq<Piece>>, uri: bool)
    requires ValidNames(names, uri) && i <= |s| && s[i..] == NamesText(names)
    ensures ParseTokens(s, i, uri) == Tokens(MakeTokens(NamesValue(names, uri)))
    ensures names != [] ==> i < |s| && s[i] == 0x2F
    decreases |names|
  {
    hide Name, ValidName, NameValue, NameText, MakeToken;
    if names != [] {
      var t, rest := NameText(names[0]), NamesText(names[1..]);
      assert Utf8.At(s, i, [0x2F] + t + rest);
      Utf8.AtSplit(s, i, [0x2F] + t, rest);
      Utf8.AtSplit(s, i, [0x2F], t);
      assert s[i..i + 1][0] == s[i];
      var k := i + 1 + |t|;
      assert s[k..] == s[i..][1 + |t|..] == rest;
      NamesRead(s, k, names[1..], uri);
      NameReads(s, i + 1, names[0], uri);
      var value := NamesValue(names, uri);
      assert value[0] == NameValue(names[0], uri) && value[1..] == NamesValue(names[1..], uri);
    }
  }

  /* ----- every text that is read is written by pieces ----- */

  lemma TripleFound(s: seq<byte>, i: nat)
    requires Triples(s, i) != []
    ensures i + 3 <= |s| && IsTriple(s[i..i + 3]) && Triples(s, i) == [TripleByte(s[i..i + 3])] + Triples(s, i + 3)
  {
    TripleIs(s, i);
  }

  lemma {:induction false} TriplesFound(s: seq<byte>, i: nat, n: nat) returns (ts: seq<seq<byte>>)
    requires n <= |Triples(s, i)| && i <= |s|
    ensures AllTriples(ts) && Utf8.At(s, i, Concat(ts)) && TripleBytes(ts) == Triples(s, i)[..n] && |ts| == n
    ensures |Concat(ts)| == 3 * n
    decreases n
  {
    hide IsTriple, Triple, TripleByte;
    if n == 0 {
      ts := [];
      assert s[i..i] == [];
    } else {
      TripleFound(s, i);
      var rest := TriplesFound(s, i + 3, n - 1);
      ts := [s[i..i + 3]] + rest;
      assert ts[1..] == rest;
      Utf8.AtJoin(s, i, s[i..i + 3], Concat(rest));
      assert Triples(s, i)[..n] == [TripleByte(ts[0])] + Triples(s, i + 3)[..n - 1];
    }
  }

  /** The spelling of a tilde that ends at `j`, and the digit of its escape. */
  lemma EscapeFound(s: seq<byte>, i: nat, j: nat, uri: bool) returns (p: Piece)
    requires i < j <= |s| && EscapeUnit(s, j, 0x7E).Unit?
    requires s[i..j] == [0x7E] || (uri && IsTriple(s[i..j]) && TripleByte(s[i..j]) == 0x7E)
    ensures ValidPiece(p, uri) && Utf8.At(s, i, PieceText(p)) && j + 1 == i + |PieceText(p)|
    ensures EscapeUnit(s, j, 0x7E) == Unit(PieceValue(p, uri), j + 1)
  {
    hide IsTriple, TripleByte;
    p := Escape(s[i..j], s[j]);
    assert s[i..j + 1] == s[i..j] + [s[j]];
  }

  lemma ValidatedInside(run: seq<byte>) returns (cp: Utf8.Scalar)
    requires run != [] && Utf8.Validate(run, 0).ok
    ensures var v := Utf8.Validate(run, 0); v.copied == Utf8.Encode(cp) && |v.copied| <= |run|
    ensures Utf8.Validate(run, 0).copied == run[..|Utf8.Validate(run, 0).copied|]
  {
    hide Utf8.Validate, Utf8.Encode;
    cp := Utf8.ValidatedScalar(run, 0);
    CopiedIs(run, cp);
    assert run[0..|Utf8.Encode(cp)|] == run[..|Utf8.Encode(cp)|];
  }

  lemma PercentFound(s: seq<byte>, i: nat) returns (p: Piece)
    requires i < |s| && PercentUnit(s, i).Unit?
    ensures ValidPiece(p, true) && Utf8.At(s, i, PieceText(p))
    ensures PercentUnit(s, i) == Unit(PieceValue(p, true), i + |PieceText(p)|)
  {
    hide Utf8.Validate, Triples, TripleByte, IsTriple, AllTriples, TripleBytes, Utf8.Encode;
    var run := Triples(s, i);
    var v := Utf8.Validate(run, 0);
    NoneValid(run);
    var cp := ValidatedInside(run);
    var ts := TriplesFound(s, i, |v.copied|);
    if v.copied == [0x7E] {
      OneTriple(ts);
      assert s[i..i + 3] == Concat(ts);
      p := EscapeFound(s, i, i + 3, true);
    } else {
      p := Sequence(ts);
      assert TripleBytes(ts) == Utf8.Encode(cp);
      assert IsCharacter(TripleBytes(ts));
    }
  }

  lemma OneTriple(ts: seq<seq<byte>>)
    requires AllTriples(ts) && TripleBytes(ts) == [0x7E] && |ts| == 1
    ensures IsTriple(Concat(ts)) && TripleByte(Concat(ts)) == 0x7E && |Concat(ts)| == 3
  {
    assert ts[1..] == [] && Concat(ts) == ts[0];
    assert TripleBytes(ts)[0] == TripleByte(ts[0]);
  }

  lemma NoneValid(run: seq<byte>)
    requires Utf8.Validate(run, 0).ok && |Utf8.Validate(run, 0).copied| <= |run|
    ensures run != []
  {
    Utf8.ValidateAgreesWithDecode(run, 0);
  }

  /** What is read as one unit is the text of a piece. */
  lemma UnitFound(s: seq<byte>, i: nat, uri: bool) returns (p: Piece)
    requires i < |s| && s[i] != 0x2F && UnitAt(s, i, uri).Unit?
    ensures ValidPiece(p, uri) && Utf8.At(s, i, PieceText(p))
    ensures UnitAt(s, i, uri) == Unit(PieceValue(p, uri), i + |PieceText(p)|)
  {
    hide PercentUnit, IsTriple, TripleByte, IsCharacter, AllTriples;
    UnreservedIs(s[i]);
    assert s[i..i + 1] == [s[i]];
    if uri && s[i] == PERCENT {
      p := PercentFound(s, i);
    } else if s[i] == TILDE {
      p := EscapeFound(s, i, i + 1, uri);
    } else {
      p := Direct(s[i]);
    }
  }

  lemma {:induction false} NameFound(s: seq<byte>, i: nat, uri: bool) returns (ps: seq<Piece>)
    requires i <= |s| && Name(s, i, uri).Unit?
    ensures ValidName(ps, uri) && Utf8.At(s, i, NameText(ps))
    ensures Name(s, i, uri) == Unit(NameValue(ps, uri), i + |NameText(ps)|)
    ensures var end := i + |NameText(ps)|; end == |s| || s[end] == 0x2F
    decreases |s| - i
  {
    hide UnitAt, ValidPiece, PieceText, PieceValue;
    if i == |s| || s[i] == SLASH {
      ps := [];
      assert s[i..i] == [];
    } else {
      var p := UnitFound(s, i, uri);
      var rest := NameFound(s, UnitAt(s, i, uri).next, uri);
      ps := [p] + rest;
      assert ps[1..] == rest;
      Utf8.AtJoin(s, i, PieceText(p), NameText(rest));
    }
  }

  lemma {:induction false} NamesFound(s: seq<byte>, i: nat, uri: bool) returns (names: seq<seq<Piece>>)
    requires i <= |s| && (i < |s| ==> s[i] == 0x2F) && ParseTokens(s, i, uri).Tokens?
    ensures ValidNames(names, uri) && s[i..] == NamesText(names)
    decreases |s| - i
  {
    hide Name, ValidName, NameText, NameValue;
    if i == |s| {
      names := [];
    } else {
      var ps := NameFound(s, i + 1, uri);
      var k := i + 1 + |NameText(ps)|;
      var rest := NamesFound(s, k, uri);
      names := [ps] + rest;
      assert names[1..] == rest;
      assert s[i..] == [s[i]] + s[i + 1..k] + s[k..];
    }
  }

  /**
   * The language of the parser: a text is read if and only if it is the text of names, behind a number
   * sign in a fragment. Its tokens are what the pieces of the names stand for, however they are spelled.
   */
  lemma PointerLanguage(s: seq<byte>)
    ensures var uri := Peek(s, 0) == 0x23;
            && (Parse(s).Tokens? <==> exists names: seq<seq<Piece>> :: IsPointer(s, names, uri))
            && forall names: seq<seq<Piece>> :: IsPointer(s, names, uri) ==>
                   Parse(s) == Tokens(MakeTokens(NamesValue(names, uri)))
  {
    hide ParseTokens, ValidNames, NamesText, NamesValue, MakeTokens;
    var uri := Peek(s, 0) == 0x23;
    var i := if uri then 1 else 0;
    if Parse(s).Tokens? {
      var names := NamesFound(s, i, uri);
      assert s == s[..i] + s[i..];
      assert IsPointer(s, names, uri);
    }
    forall names: seq<seq<Piece>> | IsPointer(s, names, uri)
      ensures Parse(s) == Tokens(MakeTokens(NamesValue(names, uri)))
    {
      assert s[i..] == NamesText(names);
      NamesRead(s, i, names, uri);
      NoNames(names);
    }
  }

  lemma NoNames(names: seq<seq<Piece>>)
    ensures names == [] ==> NamesText(names) == []
  {
  }

  /* ----- what is printed ----- */

  /** Upper case digits, and percent-encoding where the character needs it. */
  predicate CanonicalPiece(p: Piece) {
    match p
    case Direct(b) => true
    case Escape(tilde, _) => tilde == [0x7E]
    case Sequence(ts) =>
      && AllTriples(ts) && (forall k | 0 <= k < |ts| :: ts[k][1] <= 0x46 && ts[k][2] <= 0x46)
      && (ts != [] ==> !Unreserved(TripleByte(ts[0])) && TripleByte(ts[0]) != 0x2F)
  }

  ghost predicate CanonicalName(ps: seq<Piece>, uri: bool) {
    forall k | 0 <= k < |ps| :: ValidPiece(ps[k], uri) && CanonicalPiece(ps[k])
  }

  lemma {:induction false} TriplesOf(e: seq<byte>) returns (ts: seq<seq<byte>>)
    ensures AllTriples(ts) && TripleBytes(ts) == e && Concat(ts) == Percents(e) && |ts| == |e|
    ensures forall k | 0 <= k < |ts| :: ts[k][1] <= 0x46 && ts[k][2] <= 0x46
    decreases |e|
  {
    if e == [] {
      ts := [];
    } else {
      var rest := TriplesOf(e[1..]);
      var t := [PERCENT, HexOf(e[0] / 16), HexOf(e[0] % 16)];
      TripleOf(e[0]);
      ts := [t] + rest;
      assert ts[1..] == rest;
    }
  }

  lemma TripleOf(b: byte)
    ensures var t := [PERCENT, HexOf(b / 16), HexOf(b % 16)];
            IsTriple(t) && TripleByte(t) == b && t[1] <= 0x46 && t[2] <= 0x46
  {
  }

  lemma PieceOf(name: seq<byte>, j: nat, uri: bool) returns (p: Piece)
    requires j < |name| && PrintUnit(name, j, uri).Some?
    ensures ValidPiece(p, uri) && CanonicalPiece(p) && PieceText(p) == PrintUnit(name, j, uri).value
    ensures j < UnitEnd(name, j, uri) <= |name| && PieceValue(p, uri) == name[j..UnitEnd(name, j, uri)]
  {
    hide Utf8.Validate, Percents, IsTriple, TripleByte, Utf8.Encode, IsCharacter;
    var c := name[j];
    UnreservedIs(c);
    if c == TILDE {
      p := Escape([0x7E], 0x30);
    } else if c == SLASH {
      p := Escape([0x7E], 0x31);
    } else if uri && NeedPercentEncode(c) {
      var e := Utf8.Validate(name, j).copied;
      ValidatedPart(name, j);
      CopiedCharacter(name, j);
      var ts := TriplesOf(e);
      assert TripleBytes(ts)[0] == TripleByte(ts[0]);
      p := Sequence(ts);
    } else {
      p := Direct(c);
    }
  }

  lemma CopiedCharacter(name: seq<byte>, j: nat)
    requires j < |name| && Utf8.Validate(name, j).ok && Utf8.At(name, j, Utf8.Validate(name, j).copied)
    ensures IsCharacter(Utf8.Validate(name, j).copied)
  {
    hide Utf8.Validate, Utf8.Encode;
    var cp := Utf8.ValidatedScalar(name, j);
    assert Utf8.Validate(name, j).copied == Utf8.Encode(cp);
  }

  /** A name is printed in its canonical spelling: one text, whose pieces stand for its bytes. */
  lemma {:induction false} PrintedName(name: seq<byte>, j: nat, uri: bool) returns (ps: seq<Piece>)
    requires j <= |name| && PrintName(name, j, uri).Some?
    ensures CanonicalName(ps, uri) && NameText(ps) == PrintName(name, j, uri).value
    ensures NameValue(ps, uri) == name[j..]
    decreases |name| - j
  {
    hide PrintUnit, UnitEnd, ValidPiece, CanonicalPiece, PieceText, PieceValue;
    if j == |name| {
      ps := [];
    } else {
      var p := PieceOf(name, j, uri);
      var k := UnitEnd(name, j, uri);
      var rest := PrintedName(name, k, uri);
      ps := [p] + rest;
      assert ps[1..] == rest;
      assert name[j..] == name[j..k] + name[k..];
    }
  }

  /** A pointer is printed as the canonical spellings of its names. */
  lemma {:induction false} PrintedPointer(names: seq<seq<byte>>, uri: bool) returns (pieces: seq<seq<Piece>>)
    requires PrintNames(names, uri).Some?
    ensures ValidNames(pieces, uri) && forall k | 0 <= k < |pieces| :: CanonicalName(pieces[k], uri)
    ensures NamesText(pieces) == PrintNames(names, uri).value && NamesValue(pieces, uri) == names
    decreases |names|
  {
    hide PrintName, CanonicalName, NameText, NameValue, ValidName;
    if names == [] {
      pieces := [];
    } else {
      var ps := PrintedName(names[0], 0, uri);
      var rest := PrintedPointer(names[1..], uri);
      CanonicalIsValid(ps, uri);
      pieces := [ps] + rest;
      assert pieces[1..] == rest;
      assert names[0][0..] == names[0];
    }
  }

  lemma CanonicalIsValid(ps: seq<Piece>, uri: bool)
    requires CanonicalName(ps, uri)
    ensures ValidName(ps, uri)
  {
  }

  /* ----- what is refused ----- */

  /** No run of triples at `j` is a character. */
  ghost predicate NoCharacter(s: seq<byte>, j: nat) {
    forall ts: seq<seq<byte>> :: AllTriples(ts) && Utf8.At(s, j, Concat(ts)) ==> !IsCharacter(TripleBytes(ts))
  }

  predicate NoEscape(s: seq<byte>, k: nat) { k >= |s| || (s[k] != 0x30 && s[k] != 0x31) }

  /** Why no piece begins at `j`, and the byte that this is reported at. */
  ghost predicate Refused(s: seq<byte>, j: nat, uri: bool, code: PointerError, offset: nat)
    requires j < |s|
  {
    match code
    case MustBeginWithSolidus => false
    case MustPercentEncode => uri && !Unreserved(s[j]) && s[j] != 0x25 && offset == j
    case InvalidPercentEncoding => uri && s[j] == 0x25 && NoCharacter(s, j) && offset == j
    case InvalidEscape =>
      NoEscape(s, offset) &&
      ((s[j] == 0x7E && offset == j + 1) ||
       (uri && offset == j + 3 && offset <= |s| && IsTriple(s[j..offset]) && TripleByte(s[j..offset]) == 0x7E))
  }

  lemma UnitRefused(s: seq<byte>, j: nat, uri: bool, code: PointerError, offset: nat)
    requires j < |s| && s[j] != 0x2F && Refused(s, j, uri, code, offset)
    ensures UnitAt(s, j, uri) == BadUnit(code, offset)
  {
    hide Utf8.Validate, Triples, TripleByte, NoCharacter, JsonGrammar.IsHex;
    UnreservedIs(s[j]);
    if uri && s[j] == 0x25 {
      if code == InvalidPercentEncoding {
        CharacterRefused(s, j);
      } else {
        TildeRefused(s, j);
      }
    }
  }

  lemma CharacterRefused(s: seq<byte>, j: nat)
    requires j < |s| && NoCharacter(s, j)
    ensures PercentUnit(s, j) == BadUnit(InvalidPercentEncoding, j)
  {
    hide Utf8.Validate, Triples, AllTriples, TripleBytes, IsCharacter;
    var v := Utf8.Validate(Triples(s, j), 0);
    if v.ok && |v.copied| <= |Triples(s, j)| {
      var ts := CharacterFound(s, j);
    }
  }

  /** The triples of the character that validation accepts. */
  lemma CharacterFound(s: seq<byte>, j: nat) returns (ts: seq<seq<byte>>)
    requires j < |s|
    requires var v := Utf8.Validate(Triples(s, j), 0); v.ok && |v.copied| <= |Triples(s, j)|
    ensures AllTriples(ts) && Utf8.At(s, j, Concat(ts)) && IsCharacter(TripleBytes(ts))
  {
    hide Utf8.Validate, Triples, IsTriple, TripleByte, Utf8.Encode;
    var run := Triples(s, j);
    NoneValid(run);
    var cp := ValidatedInside(run);
    ts := TriplesFound(s, j, |Utf8.Validate(run, 0).copied|);
    assert TripleBytes(ts) == Utf8.Encode(cp);
  }

  lemma TildeRefused(s: seq<byte>, j: nat)
    requires j + 3 <= |s| && IsTriple(s[j..j + 3]) && TripleByte(s[j..j + 3]) == 0x7E && NoEscape(s, j + 3)
    ensures PercentUnit(s, j) == BadUnit(InvalidEscape, j + 3)
  {
    hide Utf8.Validate, Triples, IsTriple, TripleByte;
    var tilde := s[j..j + 3];
    TildeCharacter(tilde);
    var one: seq<seq<byte>> := [tilde];
    assert one[1..] == [] && Concat(one) == tilde;
    SequenceReads(s, j, [tilde]);
  }

  lemma {:induction false} NameRefused(s: seq<byte>, i: nat, ps: seq<Piece>, uri: bool, code: PointerError,
                                       offset: nat)
    requires ValidName(ps, uri) && Utf8.At(s, i, NameText(ps)) && i + |NameText(ps)| < |s|
    requires s[i + |NameText(ps)|] != 0x2F && Refused(s, i + |NameText(ps)|, uri, code, offset)
    ensures Name(s, i, uri) == BadUnit(code, offset)
    decreases |ps|
  {
    hide UnitAt, ValidPiece, PieceValue, PieceText, Refused;
    if ps == [] {
      UnitRefused(s, i, uri, code, offset);
    } else {
      Utf8.AtSplit(s, i, PieceText(ps[0]), NameText(ps[1..]));
      UnitReads(s, i, ps[0], uri);
      NameRefused(s, i + |PieceText(ps[0])|, ps[1..], uri, code, offset);
    }
  }

  /** Names in front of a solidus, and behind it a name that is refused. */
  lemma {:induction false} NamesRefused(s: seq<byte>, i: nat, names: seq<seq<Piece>>, ps: seq<Piece>, uri: bool,
                                        code: PointerError, offset: nat)
    requires ValidNames(names, uri) && ValidName(ps, uri) && i <= |s|
    requires Utf8.At(s, i, NamesText(names) + ([0x2F] + NameText(ps)))
    requires var j := i + |NamesText(names)| + 1 + |NameText(ps)|;
             j < |s| && s[j] != 0x2F && Refused(s, j, uri, code, offset)
    ensures ParseTokens(s, i, uri) == Failed(code, offset)
    ensures i < |s| && s[i] == 0x2F
    decreases |names|
  {
    hide Name, ValidName, NameValue, NameText, MakeToken, Refused;
    if names == [] {
      assert NamesText(names) + ([0x2F] + NameText(ps)) == [0x2F] + NameText(ps);
      Utf8.AtSplit(s, i, [0x2F], NameText(ps));
      JsonGrammar.AtFirst(s, i, [0x2F]);
      NameRefused(s, i + 1, ps, uri, code, offset);
    } else {
      NamesCut(s, i, names, ps);
      var k := i + 1 + |NameText(names[0])|;
      NamesRefused(s, k, names[1..], ps, uri, code, offset);
      NameReads(s, i + 1, names[0], uri);
    }
  }

  lemma Regroup(a: seq<byte>, b: seq<byte>, c: seq<byte>, d: seq<byte>)
    ensures a + b + c + d == a + (b + (c + d))
  {
  }

  lemma NamesCut(s: seq<byte>, i: nat, names: seq<seq<Piece>>, ps: seq<Piece>)
    requires names != [] && Utf8.At(s, i, NamesText(names) + ([0x2F] + NameText(ps)))
    ensures var k := i + 1 + |NameText(names[0])|;
            && i < |s| && Peek(s, i) == 0x2F && Utf8.At(s, i + 1, NameText(names[0]))
            && Utf8.At(s, k, NamesText(names[1..]) + ([0x2F] + NameText(ps)))
            && |NamesText(names)| == 1 + |NameText(names[0])| + |NamesText(names[1..])|
  {
    hide NameText, Utf8.At;
    var rest := NamesText(names[1..]) + ([0x2F] + NameText(ps));
    Regroup([0x2F], NameText(names[0]), NamesText(names[1..]), [0x2F] + NameText(ps));
    Utf8.AtSplit(s, i, [0x2F], NameText(names[0]) + rest);
    Utf8.AtSplit(s, i + 1, NameText(names[0]), rest);
    JsonGrammar.AtFirst(s, i, [0x2F]);
  }

  /** Whole names, and a name that is broken off: the pointer is refused for it, and where it is. */
  lemma PointerRefused(s: seq<byte>, names: seq<seq<Piece>>, ps: seq<Piece>, code: PointerError, offset: nat)
    requires var uri := Peek(s, 0) == 0x23; var i := if uri then 1 else 0;
             && ValidNames(names, uri) && ValidName(ps, uri)
             && Utf8.At(s, i, NamesText(names) + ([0x2F] + NameText(ps)))
             && var j := i + |NamesText(names)| + 1 + |NameText(ps)|;
                j < |s| && s[j] != 0x2F && Refused(s, j, uri, code, offset)
    ensures Parse(s) == Failed(code, offset)
  {
    hide ParseTokens, NamesText, NameText, ValidNames, ValidName, Refused;
    var uri := Peek(s, 0) == 0x23;
    NamesRefused(s, if uri then 1 else 0, names, ps, uri, code, offset);
  }

  /** The first name must begin with a solidus. */
  lemma NoSolidus(s: seq<byte>)
    ensures var i := if Peek(s, 0) == 0x23 then 1 else 0;
            Parse(s) == Failed(MustBeginWithSolidus, i) <==> i < |s| && s[i] != 0x2F
  {
    hide Name;
    var uri := Peek(s, 0) == 0x23;
    var i := if uri then 1 else 0;
    if i < |s| {
      NoSuchError(s, i, uri);
    }
  }

  lemma {:induction false} NoSuchError(s: seq<byte>, i: nat, uri: bool)
    requires i <= |s|
    ensures ParseTokens(s, i, uri).Failed? ==> ParseTokens(s, i, uri).code != MustBeginWithSolidus
    decreases |s| - i
  {
    hide Name;
    if i < |s| {
      NoSuchNameError(s, i + 1, uri);
      NameNext(s, i + 1, uri);
      var u := Name(s, i + 1, uri);
      if u.Unit? && u.next <= |s| {
        NoSuchError(s, u.next, uri);
      }
    }
  }

  lemma {:induction false} NoSuchNameError(s: seq<byte>, i: nat, uri: bool)
    ensures Name(s, i, uri).BadUnit? ==> Name(s, i, uri).code != MustBeginWithSolidus
    decreases |s| - i
  {
    hide Utf8.Validate, Triples;
    if i < |s| && s[i] != 0x2F && UnitAt(s, i, uri).Unit? {
      NoSuchNameError(s, UnitAt(s, i, uri).next, uri);
    }
  }
}
