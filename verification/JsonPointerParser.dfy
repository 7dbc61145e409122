/** The parser of JSON Pointers as it runs: one buffer for all names, and one array of tokens into it. */
module JsonPointerParser {
  import opened Bytes
  import opened JsonText
  import opened JsonPointer
  import Utf8

  /** How many of the bytes from `i` on are a solidus. */
  function Solidi(s: seq<byte>, i: nat): nat
    decreases |s| - i
  {
    if i >= |s| then 0 else (if s[i] == SLASH then 1 else 0) + Solidi(s, i + 1)
  }

  lemma {:induction false} SolidiSkip(s: seq<byte>, i: nat, j: nat)
    requires i <= j <= |s| && forall k | i <= k < j :: s[k] != SLASH
    ensures Solidi(s, i) == Solidi(s, j)
    decreases j - i
  {
    if i < j {
      SolidiSkip(s, i + 1, j);
    }
  }

  lemma TripleHasNoSolidus(s: seq<byte>, i: nat)
    requires Triple(s, i).Some?
    ensures i + 3 <= |s| && forall k | i <= k < i + 3 :: s[k] != SLASH
  {
  }

  lemma {:induction false} TriplesHaveNoSolidus(s: seq<byte>, i: nat)
    requires i <= |s|
    ensures i + 3 * |Triples(s, i)| <= |s|
    ensures forall k | i <= k < i + 3 * |Triples(s, i)| :: s[k] != SLASH
    decreases |s| - i
  {
    hide Triple;
    if Triple(s, i).Some? {
      TripleHasNoSolidus(s, i);
      TriplesHaveNoSolidus(s, i + 3);
    }
  }

  /** A round of the inner loop stays inside the name, and puts fewer bytes than it takes. */
  lemma UnitInside(s: seq<byte>, i: nat, uri: bool)
    requires i < |s| && s[i] != SLASH && UnitAt(s, i, uri).Unit?
    ensures var u := UnitAt(s, i, uri);
            && i < u.next <= |s| && i + |u.bytes| <= u.next && Solidi(s, i) == Solidi(s, u.next)
  {
    hide Triples, Utf8.Validate, Solidi;
    var u := UnitAt(s, i, uri);
    TriplesHaveNoSolidus(s, i);
    SolidiSkip(s, i, u.next);
  }

  /** The bytes of a percent-encoded sequence of two or more are no digits. */
  lemma SequenceIsNoNumber(run: seq<byte>)
    requires |Utf8.Validate(run, 0).copied| != 1
    ensures !AllDigits(Utf8.Validate(run, 0).copied)
  {
    hide Utf8.Tail;
    var c := Peek(run, 0);
    Utf8.ValidateAgreesWithDecode(run, 0);
    assert Utf8.Validate(run, 0).copied[0] == Peek(run, 0 + 0);
  }

  lemma {:induction false} CopyTailLength(s: seq<byte>, i: nat, masks: seq<nat>, acc: Utf8.Validated)
    ensures |Utf8.CopyTail(s, i, masks, acc).copied| == |acc.copied| + |masks|
    decreases |masks|
  {
    hide Utf8.Trans;
    if masks != [] {
      var c := Peek(s, i);
      CopyTailLength(s, i + 1, masks[1..], Utf8.Validated(acc.ok && Utf8.Trans(c, masks[0]), acc.copied + [c]));
    }
  }

  /** What is left of the triples after the first is what follows it. */
  lemma {:induction false} TriplesFrom(s: seq<byte>, i: nat, n: nat)
    requires n <= |Triples(s, i)|
    ensures Triples(s, i)[n..] == Triples(s, i + 3 * n)
    decreases n
  {
    hide Triple;
    if n > 0 {
      TriplesFrom(s, i + 3, n - 1);
    }
  }

  lemma FirstTriple(s: seq<byte>, i: nat)
    requires i <= |s|
    ensures Triple(s, i).Some? <==> |Triples(s, i)| > 0
    ensures Peek(Triples(s, i), 0) == if Triple(s, i).Some? then Triple(s, i).value else 0
    ensures i + 3 * |Triples(s, i)| <= |s|
  {
    TriplesHaveNoSolidus(s, i);
  }

  lemma OneDigit(c: byte)
    ensures AllDigits([c]) <==> IsDigit(c)
  {
    if AllDigits([c]) {
      assert IsDigit([c][0]);
    }
  }

  lemma DigitsSoFar(none: seq<byte>)
    ensures none == [] ==> AllDigits(none)
  {
  }

  lemma DigitsConcat(a: seq<byte>, b: seq<byte>)
    ensures AllDigits(a + b) <==> AllDigits(a) && AllDigits(b)
  {
    if AllDigits(a + b) {
      assert forall k | 0 <= k < |a| :: a[k] == (a + b)[k];
      assert forall k | 0 <= k < |b| :: b[k] == (a + b)[|a| + k];
    }
  }

  lemma PrefixedTwice(a: seq<byte>, b: seq<byte>, rest: Unit)
    ensures Prefixed(a, Prefixed(b, rest)) == Prefixed(a + b, rest)
  {
    if rest.Unit? {
      assert a + (b + rest.bytes) == (a + b) + rest.bytes;
    }
  }

  function Appended(done: seq<Token>, rest: Parsed): Parsed {
    if rest.Tokens? then Tokens(done + rest.tokens) else rest
  }

  lemma AppendedTwice(done: seq<Token>, t: Token, rest: Parsed)
    ensures Appended(done, Appended([t], rest)) == Appended(done + [t], rest)
  {
    if rest.Tokens? {
      assert done + ([t] + rest.tokens) == (done + [t]) + rest.tokens;
    }
  }

  lemma Solidus(s: seq<byte>, i: nat)
    requires i < |s| && s[i] == SLASH
    ensures Solidi(s, i) == 1 + Solidi(s, i + 1)
  {
  }

  lemma NoMoreSolidi(s: seq<byte>)
    ensures Solidi(s, |s|) == 0
  {
  }

  lemma TailShort(kind: nat)
    ensures Utf8.Tail(kind).Some? ==> |Utf8.Tail(kind).value| <= 3
  {
  }

  /** A name in the buffer, which a NUL follows, and the index it stands for. */
  datatype Slot = Slot(start: nat, length: nat, index: nat)

  ghost predicate Denotes(buffer: seq<byte>, slot: Slot, token: Token) {
    && slot.start + slot.length < |buffer| && buffer[slot.start + slot.length] == 0
    && buffer[slot.start..slot.start + slot.length] == token.name && slot.index == token.index
  }

  /** The tokens so far stand in the part of the buffer before the cursor. */
  ghost predicate Filled(buffer: seq<byte>, slots: seq<Slot>, done: seq<Token>, name: nat) {
    && |done| <= |slots| && name <= |buffer|
    && forall k :: 0 <= k < |done| ==> slots[k].start + slots[k].length < name && Denotes(buffer, slots[k], done[k])
  }

  lemma DenotesStill(buffer: seq<byte>, buffer': seq<byte>, slot: Slot, token: Token)
    requires Denotes(buffer, slot, token) && |buffer'| == |buffer|
    requires forall k :: 0 <= k <= slot.start + slot.length ==> buffer'[k] == buffer[k]
    ensures Denotes(buffer', slot, token)
  {
    var a, b := slot.start, slot.start + slot.length;
    assert buffer'[a..b] == buffer[a..b];
  }

  /** One more token, when the bytes before the cursor have stayed as they were. */
  lemma FilledMore(buffer: seq<byte>, buffer': seq<byte>, slots: seq<Slot>, done: seq<Token>, name: nat, slot: Slot,
                   token: Token)
    requires Filled(buffer, slots, done, name) && |done| < |slots| && |buffer'| == |buffer|
    requires forall k :: 0 <= k < name ==> buffer'[k] == buffer[k]
    requires slot.start == name && Denotes(buffer', slot, token)
    ensures Filled(buffer', slots[|done| := slot], done + [token], name + slot.length + 1)
  {
    var slots', done' := slots[|done| := slot], done + [token];
    assert slot.start + slot.length < |buffer'|;
    forall k | 0 <= k < |done'|
      ensures slots'[k].start + slots'[k].length < name + slot.length + 1 && Denotes(buffer', slots'[k], done'[k])
    {
      if k < |done| {
        DenotesStill(buffer, buffer', slots[k], done[k]);
      }
    }
  }

  lemma FilledNone(buffer: seq<byte>, slots: seq<Slot>)
    ensures Filled(buffer, slots, [], 0)
  {
  }

  lemma FilledAll(buffer: seq<byte>, slots: seq<Slot>, done: seq<Token>, name: nat)
    requires Filled(buffer, slots, done, name)
    ensures forall k :: 0 <= k < |done| ==> Denotes(buffer, slots[k], done[k])
  {
  }

  lemma NewSlot(buffer: seq<byte>, slot: Slot, name: seq<byte>)
    requires slot.start + slot.length < |buffer| && buffer[slot.start + slot.length] == 0
    requires buffer[slot.start..slot.start + slot.length] == name && slot.index == IndexOf(name)
    ensures Denotes(buffer, slot, MakeToken(name))
  {
  }

  class Pointer {
    var nameBuffer: array<byte>
    var tokens: array<Slot>
    var tokenCount: nat
    var error: Option<PointerError>
    var errorOffset: nat

    constructor ()
      ensures error == None && tokenCount == 0
    {
      nameBuffer := new byte[0];
      tokens := new Slot[0];
      tokenCount, error, errorOffset := 0, None, 0;
    }

    /**
     * The stream under a percent-encoded sequence: a triple at `pos`, or 0 and the mark of an invalid
     * stream. After the first failure the cursor may stand inside a broken triple.
     */
    method Take(s: seq<byte>, pos: nat, valid: bool) returns (c: byte, pos': nat, valid': bool)
      requires pos <= |s|
      ensures pos <= pos' <= |s|
      ensures valid' == (valid && Triple(s, pos).Some?)
      ensures Triple(s, pos).Some? ==> c == Triple(s, pos).value && pos' == pos + 3
      ensures Triple(s, pos).None? ==> c == 0
    {
      if pos + 3 > |s| || s[pos] != PERCENT {
        return 0, pos, false;
      }
      pos' := pos + 1;
      var n := 0;
      for k := 0 to 2
        invariant pos' == pos + 1 + k
        invariant k >= 1 ==> HexDigit(s[pos + 1]).Some?
        invariant k == 2 ==> HexDigit(s[pos + 2]).Some?
        invariant n == if k == 0 then 0 else if k == 1 then HexDigit(s[pos + 1]).value
                       else HexDigit(s[pos + 1]).value * 16 + HexDigit(s[pos + 2]).value
        invariant 0 <= n < if k == 0 then 1 else if k == 1 then 16 else 256
      {
        var h := s[pos'];
        n := n * 16;
        if ZERO <= h <= NINE {
          n := n + h - ZERO;
        } else if CAPITAL_A <= h <= CAPITAL_F {
          n := n + h - CAPITAL_A + 10;
        } else if LETTER_A <= h <= LETTER_F {
          n := n + h - LETTER_A + 10;
        } else {
          return 0, pos', false;
        }
        pos' := pos' + 1;
      }
      c, valid' := n, valid;
    }

    /**
     * Validates one UTF-8 sequence of percent-encoded bytes while copying it to the name; a sequence
     * that turns out invalid has been copied as well, and still fits.
     */
    method PutPercent(s: seq<byte>, i: nat, name: nat) returns (ok: bool, taken: nat)
      requires i < |s| == nameBuffer.Length && name + 2 <= i
      modifies nameBuffer
      ensures forall k :: 0 <= k < name ==> nameBuffer[k] == old(nameBuffer[k])
      ensures var run := Triples(s, i); var v := Utf8.Validate(run, 0);
              && ok == (v.ok && |v.copied| <= |run|)
              && (ok ==> taken == |v.copied| && i + 3 * taken <= |s| && nameBuffer[name..name + taken] == v.copied)
    {
      hide Triple, Utf8.Trans, Utf8.GetRange, Utf8.Tail;
      ghost var run := Triples(s, i);
      var c, pos, valid := Take(s, i, true);
      nameBuffer[name] := c;
      taken, ok := 1, true;
      FirstTriple(s, i);
      assert nameBuffer[name..name + 1] == [c];
      if c >= 0x80 {
        match Utf8.Tail(Utf8.GetRange(c)) {
          case None => ok := false;
          case Some(masks) =>
            TailShort(Utf8.GetRange(c));
            CopyTailLength(run, 1, masks, Utf8.Validated(true, [c]));
            ok, valid, taken := PutTail(s, i, name, masks, pos, valid);
        }
      }
      ok := ok && valid;
    }

    method PutTail(s: seq<byte>, i: nat, name: nat, masks: seq<nat>, pos0: nat, valid0: bool)
      returns (ok: bool, valid: bool, taken: nat)
      requires i + 3 == pos0 <= |s| == nameBuffer.Length && name + 2 <= i && |masks| <= 3 && valid0
      requires Triple(s, i) == Some(nameBuffer[name])
      modifies nameBuffer
      ensures forall k :: 0 <= k <= name ==> nameBuffer[k] == old(nameBuffer[k])
      ensures taken == 1 + |masks| && name + taken <= nameBuffer.Length
      ensures valid == (taken <= |Triples(s, i)|)
      ensures valid ==>
        Utf8.CopyTail(Triples(s, i), 1, masks, Utf8.Validated(true, [old(nameBuffer[name])]))
        == Utf8.Validated(ok, nameBuffer[name..name + taken])
    {
      hide Triple, Utf8.Trans;
      ghost var run := Triples(s, i);
      ghost var start := Utf8.Validated(true, [nameBuffer[name]]);
      assert nameBuffer[name..name + 1] == [nameBuffer[name]];
      var pos: nat := pos0;
      ok, valid, taken := true, valid0, 1;
      for k := 0 to |masks|
        invariant taken == k + 1 && pos <= |s|
        invariant forall k :: 0 <= k <= name ==> nameBuffer[k] == old(nameBuffer[k])
        invariant valid == (taken <= |run|)
        invariant valid ==> pos == i + 3 * taken
        invariant valid ==>
          Utf8.CopyTail(run, 1, masks, start) == Utf8.CopyTail(run, taken, masks[k..],
                                                               Utf8.Validated(ok, nameBuffer[name..name + taken]))
      {
        var c;
        if valid {
          TriplesFrom(s, i, taken);
        }
        ghost var before := nameBuffer[name..name + taken];
        c, pos, valid := Take(s, pos, valid);
        nameBuffer[name + taken] := c;
        assert nameBuffer[name..name + taken + 1] == before + [c];
        ok := ok && Utf8.Trans(c, masks[k]);
        taken := taken + 1;
        assert masks[k..][1..] == masks[k + 1..];
      }
    }

    /** Gives up: the tokens are freed and the position is kept. */
    method Fail(code: PointerError, i: nat)
      modifies this`error, this`errorOffset
      ensures error == Some(code) && errorOffset == i
    {
      error, errorOffset := Some(code), i;
    }

    /** One round of the inner loop: a character, an escape or a percent-encoded sequence. */
    method ParseUnit(s: seq<byte>, i0: nat, uri: bool, name: nat) returns (i: nat, name': nat, number: bool)
      requires i0 < |s| == nameBuffer.Length && s[i0] != SLASH && error == None
      requires name + (if uri then 2 else 1) <= i0
      modifies nameBuffer, this`error, this`errorOffset
      ensures forall k :: 0 <= k < name ==> nameBuffer[k] == old(nameBuffer[k])
      ensures var u := UnitAt(s, i0, uri);
              if u.BadUnit? then error == Some(u.code) && errorOffset == u.offset
              else
                && error == None && i == u.next && name' == name + |u.bytes| <= nameBuffer.Length
                && nameBuffer[name..name'] == u.bytes && number == AllDigits(u.bytes)
    {
      hide Triples, Utf8.Validate, AllDigits, Solidi;
      i, name', number := i0, name, false;
      var c := s[i];
      if uri {
        if c == PERCENT {
          var ok, taken := PutPercent(s, i, name);
          if !ok {
            Fail(InvalidPercentEncoding, i);
            return;
          }
          i := i + 3 * taken - 1;
          if taken == 1 {
            c := nameBuffer[name];
          } else {
            SequenceIsNoNumber(Triples(s, i0));
            name' := name + taken;
            i := i + 1;
            return;
          }
        } else if NeedPercentEncode(c) {
          Fail(MustPercentEncode, i);
          return;
        }
      }
      i := i + 1;
      if c == TILDE {
        if i < |s| {
          c := s[i];
          if c == ZERO {
            c := TILDE;
          } else if c == ZERO + 1 {
            c := SLASH;
          } else {
            Fail(InvalidEscape, i);
            return;
          }
          i := i + 1;
        } else {
          Fail(InvalidEscape, i);
          return;
        }
      }
      number := IsDigit(c);
      nameBuffer[name] := c;
      name' := name + 1;
      OneDigit(c);
      assert nameBuffer[name..name'] == [c];
    }

    /** The name at `i0`, up to a solidus or the end; a NUL after it. */
    method ParseName(s: seq<byte>, i0: nat, uri: bool, start: nat) returns (i: nat, name: nat, isNumber: bool)
      requires i0 <= |s| == nameBuffer.Length && error == None
      requires start + (if uri then 2 else 1) <= i0
      modifies nameBuffer, this`error, this`errorOffset
      ensures forall k :: 0 <= k < start ==> nameBuffer[k] == old(nameBuffer[k])
      ensures var u := Name(s, i0, uri);
              if u.BadUnit? then error == Some(u.code) && errorOffset == u.offset
              else
                && error == None && i == u.next && i0 <= i <= |s| && (i < |s| ==> s[i] == SLASH)
                && name == start + |u.bytes| && name + (if uri then 2 else 1) <= i && Solidi(s, i) == Solidi(s, i0)
                && nameBuffer[start..name] == u.bytes && nameBuffer[name] == 0 && isNumber == AllDigits(u.bytes)
    {
      hide UnitAt, AllDigits, Solidi;
      i, name, isNumber := i0, start, true;
      DigitsSoFar(nameBuffer[start..name]);
      assert Name(s, i0, uri) == Prefixed([], Name(s, i, uri));
      while i < |s| && s[i] != SLASH
        invariant i0 <= i <= |s| && error == None && start <= name && name + (if uri then 2 else 1) <= i
        invariant forall k :: 0 <= k < start ==> nameBuffer[k] == old(nameBuffer[k])
        invariant Name(s, i0, uri) == Prefixed(nameBuffer[start..name], Name(s, i, uri))
        invariant isNumber == AllDigits(nameBuffer[start..name]) && Solidi(s, i) == Solidi(s, i0)
      {
        ghost var before, u, at := nameBuffer[start..name], UnitAt(s, i, uri), i;
        var next, name', number := ParseUnit(s, i, uri, name);
        if error != None { return; }
        UnitInside(s, at, uri);
        DigitsConcat(before, u.bytes);
        assert nameBuffer[start..name] == before;
        assert nameBuffer[start..name'] == before + u.bytes;
        PrefixedTwice(before, u.bytes, Name(s, next, uri));
        i, name, isNumber := next, name', isNumber && number;
      }
      ghost var put := nameBuffer[start..name];
      nameBuffer[name] := 0;
      assert nameBuffer[start..name] == put;
    }

    /** The index a name stands for. */
    method ToIndex(start: nat, length: nat, allDigits: bool) returns (index: nat)
      requires start + length <= nameBuffer.Length && allDigits == AllDigits(nameBuffer[start..start + length])
      ensures index == IndexOf(nameBuffer[start..start + length])
    {
      ghost var name := nameBuffer[start..start + length];
      var isNumber := allDigits;
      if length == 0 {
        isNumber := false;
      }
      if isNumber && length > 1 && nameBuffer[start] == ZERO {
        isNumber := false;
      }
      var n: nat := 0;
      if isNumber {
        for j := 0 to length
          invariant isNumber && n < WORD && IndexFrom(name, j, n) == IndexFrom(name, 0, 0)
        {
          assert name[j] == nameBuffer[start + j];
          var m := (n * 10 + (nameBuffer[start + j] - ZERO)) % WORD;
          if m < n {
            isNumber := false;
            break;
          }
          n := m;
        }
      }
      index := if isNumber then n else INVALID_INDEX;
    }

    /** Parses a text that a NUL follows. A failed pointer has no tokens. */
    method Parse(s: seq<byte>)
      requires error == None
      modifies this
      ensures var r := JsonPointer.Parse(s);
              if r.Failed? then error == Some(r.code) && errorOffset == r.offset && tokenCount == 0
              else
                && error == None && tokenCount == |r.tokens| == tokens.Length
                && forall k :: 0 <= k < tokenCount ==> Denotes(nameBuffer[..], tokens[k], r.tokens[k])
    {
      hide Name, AllDigits, IndexOf, Denotes;
      tokenCount := 0;
      for k := 0 to |s|
        invariant error == None && tokenCount + Solidi(s, k) == Solidi(s, 0)
      {
        if s[k] == SLASH {
          tokenCount := tokenCount + 1;
        }
      }
      tokens := new Slot[tokenCount](_ => Slot(0, 0, 0));
      nameBuffer := new byte[|s|];
      var i := 0;
      var uri := Peek(s, 0) == HASH;
      if uri {
        i := i + 1;
      }
      if i != |s| && s[i] != SLASH {
        tokenCount := 0;
        Fail(MustBeginWithSolidus, i);
        return;
      }
      ParseAll(s, i, uri);
    }

    method ParseAll(s: seq<byte>, i0: nat, uri: bool)
      requires error == None && nameBuffer.Length == |s| && tokens.Length == tokenCount == Solidi(s, i0)
      requires i0 == (if uri then 1 else 0) <= |s| && (i0 < |s| ==> s[i0] == SLASH)
      modifies this`error, this`errorOffset, this`tokenCount, nameBuffer, tokens
      ensures var r := ParseTokens(s, i0, uri);
              if r.Failed? then error == Some(r.code) && errorOffset == r.offset && tokenCount == 0
              else
                && error == None && tokenCount == |r.tokens| == tokens.Length
                && forall k :: 0 <= k < tokenCount ==> Denotes(nameBuffer[..], tokens[..][k], r.tokens[k])
    {
      hide Name, AllDigits, IndexOf, Denotes, Solidi, Filled;
      FilledNone(nameBuffer[..], tokens[..]);
      NoMoreSolidi(s);
      var i, name, token := i0, 0, 0;
      ghost var done := [];
      while i < |s|
        invariant i0 <= i <= |s| && (i < |s| ==> s[i] == SLASH)
        invariant error == None && tokens.Length == tokenCount == token + Solidi(s, i)
        invariant |done| == token && Filled(nameBuffer[..], tokens[..], done, name)
            && name + (if uri then 1 else 0) <= i
        invariant ParseTokens(s, i0, uri) == Appended(done, ParseTokens(s, i, uri))
      {
        Solidus(s, i);
        ghost var buffer, slots := nameBuffer[..], tokens[..];
        var next, name', isNumber := ParseName(s, i + 1, uri, name);
        if error != None {
          tokenCount := 0;
          return;
        }
        var index := ToIndex(name, name' - name, isNumber);
        tokens[token] := Slot(name, name' - name, index);
        ghost var t := MakeToken(nameBuffer[name..name']);
        NewSlot(nameBuffer[..], tokens[token], t.name);
        FilledMore(buffer, nameBuffer[..], slots, done, name, tokens[token], t);
        assert tokens[..] == slots[token := tokens[token]];
        AppendedTwice(done, t, ParseTokens(s, next, uri));
        done := done + [t];
        i, name, token := next, name' + 1, token + 1;
      }
      FilledAll(nameBuffer[..], tokens[..], done, name);
    }
  }

  lemma PrependTwice(a: seq<byte>, b: seq<byte>, rest: Option<seq<byte>>)
    ensures PrependTo(a, PrependTo(b, rest)) == PrependTo(a + b, rest)
  {
    if rest.Some? {
      assert a + (b + rest.value) == (a + b) + rest.value;
    }
  }

  lemma PrependNone(rest: Option<seq<byte>>)
    ensures PrependTo([], rest) == rest
  {
    if rest.Some? {
      assert [] + rest.value == rest.value;
    }
  }

  /** Prints a pointer; the output of a failed print is of no use. */
  method Stringify(names: seq<seq<byte>>, uri: bool) returns (ok: bool, os: seq<byte>)
    ensures ok == JsonPointer.Stringify(names, uri).Some?
    ensures ok ==> os == JsonPointer.Stringify(names, uri).value
  {
    hide PrintName;
    os := if uri then [HASH] else [];
    PrependNone(PrintNames(names, uri));
    for t := 0 to |names|
      invariant JsonPointer.Stringify(names, uri) == PrependTo(os, PrintNames(names[t..], uri))
    {
      assert names[t..][0] == names[t] && names[t..][1..] == names[t + 1..];
      PrependTwice(os, [SLASH], PrintName(names[t], 0, uri));
      ghost var printed := PrintName(names[t], 0, uri);
      ghost var before := os;
      ok, os := StringifyName(names[t], uri, os + [SLASH]);
      if !ok {
        return;
      }
      PrependTwice(before, [SLASH] + printed.value, PrintNames(names[t + 1..], uri));
      assert os == before + ([SLASH] + printed.value);
    }
    assert names[|names|..] == [];
    assert os + [] == os;
    ok := true;
  }

  method StringifyName(name: seq<byte>, uri: bool, os0: seq<byte>) returns (ok: bool, os: seq<byte>)
    ensures ok == PrintName(name, 0, uri).Some?
    ensures ok ==> os == os0 + PrintName(name, 0, uri).value
  {
    hide Utf8.Validate, Percents;
    os := os0;
    var j := 0;
    while j < |name|
      invariant 0 <= j <= |name|
      invariant PrependTo(os0, PrintName(name, 0, uri)) == PrependTo(os, PrintName(name, j, uri))
      decreases |name| - j
    {
      var c := name[j];
      ghost var at, before := j, os;
      if c == TILDE {
        os := os + [TILDE, ZERO];
      } else if c == SLASH {
        os := os + [TILDE, ZERO + 1];
      } else if uri && NeedPercentEncode(c) {
        var v := Utf8.Validate(name, j);
        if !v.ok {
          return false, os;
        }
        ValidatedPart(name, j);
        os := os + Percents(v.copied);
        j := j + |v.copied| - 1;
      } else {
        os := os + [c];
      }
      j := j + 1;
      assert os == before + PrintUnit(name, at, uri).value && j == UnitEnd(name, at, uri);
      PrependTwice(before, PrintUnit(name, at, uri).value, PrintName(name, j, uri));
    }
    assert os + [] == os;
    ok := true;
  }
}
