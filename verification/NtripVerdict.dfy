/**
 * How the parser of a caster's response stands after any division of the input, said of the bytes
 * themselves: the first line, its second word, and the blank line.
 */
module NtripVerdict {
  import opened Bytes
  import opened NtripResponse

  /** A carriage return and a line feed. */
  predicate BreakAt(s: seq<byte>, k: nat) { k + 1 < |s| && s[k] == 0x0D && s[k + 1] == 0x0A }

  /** The first line, without its end. */
  ghost predicate FirstLine(s: seq<byte>, line: seq<byte>) {
    line <= s && BreakAt(s, |line|) && forall j :: 0 <= j < |line| ==> !BreakAt(s, j)
  }

  ghost predicate NoLine(s: seq<byte>) { forall j :: 0 <= j < |s| ==> !BreakAt(s, j) }

  /** The first blank line begins at `h`, with the end of the line before it. */
  ghost predicate BlankAt(s: seq<byte>, h: nat) {
    BreakAt(s, h) && BreakAt(s, h + 2) && forall j :: 0 <= j < h ==> !(BreakAt(s, j) && BreakAt(s, j + 2))
  }

  ghost predicate NoBlank(s: seq<byte>) { forall j :: 0 <= j < |s| ==> !(BreakAt(s, j) && BreakAt(s, j + 2)) }

  predicate White(c: byte) { 0x09 <= c <= 0x0D || 0x1C <= c <= 0x20 || c == 0x85 || c == 0xA0 }

  /** The second word begins at `k`: white space, a word of at least one byte, and white space before it. */
  ghost predicate SecondAt(line: seq<byte>, i: nat, j: nat, k: nat) {
    && i < j < k < |line|
    && (forall t :: 0 <= t < i ==> White(line[t])) && (forall t :: i <= t < j ==> !White(line[t]))
    && (forall t :: j <= t < k ==> White(line[t])) && !White(line[k])
  }

  /** The second word of the line is 200. */
  ghost predicate Says200(line: seq<byte>) {
    exists i: nat, j: nat, k: nat :: SecondAt(line, i, j, k) && k + 3 <= |line| && line[k..k + 3] == [0x32, 0x30, 0x30]
                      && (k + 3 == |line| || White(line[k + 3]))
  }

  /** The line begins with HTTP and a solidus. */
  predicate IsHttp(line: seq<byte>) { [0x48, 0x54, 0x54, 0x50, 0x2F] <= line }

  /** The line begins with the letters I, C and Y in either case and a space. */
  predicate IsIcyLine(line: seq<byte>) {
    && 4 <= |line| && (line[0] == 0x49 || line[0] == 0x69) && (line[1] == 0x43 || line[1] == 0x63)
    && (line[2] == 0x59 || line[2] == 0x79) && line[3] == 0x20
  }

  /** Printable ASCII with a colon, which is how a header begins. */
  predicate HeaderText(line: seq<byte>) {
    (exists k :: 0 <= k < |line| && line[k] == 0x3A) &&
    forall k :: 0 <= k < |line| ==> line[k] == 0x09 || 0x20 <= line[k] <= 0x7E
  }

  /** An empty line, or a header, begins here. */
  ghost predicate HeaderBegins(s: seq<byte>) {
    || BreakAt(s, 0)
    || (NoLine(s) && HeaderText(s))
    || exists line: seq<byte> :: FirstLine(s, line) && HeaderText(line)
  }

  /** The header has not ended yet, or the bytes behind its blank line are handed on. */
  ghost predicate HeaderEnds(s: seq<byte>, t: Total) {
    (NoBlank(s) && t == Total([], More)) || exists h :: BlankAt(s, h) && t == Total(s[h + 4..], Accepted([]))
  }

  /** What the first line leads to. */
  ghost predicate LineLeads(s: seq<byte>, line: seq<byte>, t: Total)
    requires |line| + 2 <= |s|
  {
    if !Says200(line) then t == Total([], BadStatus)
    else if IsHttp(line) then HeaderEnds(s, t)
    else if !IsIcyLine(line) then t == Total([], Unsupported)
    else t == Total(s[|line| + 2..], Accepted([])) || (HeaderBegins(s[|line| + 2..]) && HeaderEnds(s, t))
  }

  /** How the parser stands after the input. */
  ghost predicate Stands(s: seq<byte>, t: Total) {
    if NoLine(s) then t == Total([], More) else exists line: seq<byte> :: FirstLine(s, line) && LineLeads(s, line, t)
  }

  /** Nothing is decided yet. */
  ghost predicate Open(s: seq<byte>) {
    NoLine(s) ||
    (NoBlank(s) && exists line: seq<byte> ::
       FirstLine(s, line) && Says200(line) &&
       (IsHttp(line) || (IsIcyLine(line) && HeaderBegins(s[|line| + 2..]))))
  }

  /** While nothing is decided the bytes stay within the limit. */
  ghost predicate Below(buffer: seq<byte>, chunks: seq<seq<byte>>, limit: nat)
    decreases |chunks|
  {
    chunks == [] ||
    (|buffer + chunks[0]| <= limit && (Open(buffer + chunks[0]) ==> Below(buffer + chunks[0], chunks[1..], limit)))
  }

  /* ----- the functions of the parser, said of the bytes ----- */

  lemma BreakIs(s: seq<byte>, k: nat)
    ensures HasAt(s, CRLF, k) <==> BreakAt(s, k)
    ensures HasAt(s, BLANK_LINE, k) <==> BreakAt(s, k) && BreakAt(s, k + 2)
  {
    if k + 2 <= |s| {
      assert s[k..k + 2] == [s[k], s[k + 1]];
    }
    if k + 4 <= |s| {
      assert s[k..k + 4] == [s[k], s[k + 1], s[k + 2], s[k + 3]];
    }
  }

  lemma LineFound(s: seq<byte>)
    ensures var end := Find(s, CRLF, 0);
            if end.Some? then end.value + 2 <= |s| && FirstLine(s, s[..end.value]) else NoLine(s)
  {
    hide Find, HasAt, BreakAt;
    var end := Find(s, CRLF, 0);
    if end.Some? {
      BreakIs(s, end.value);
      assert end.value + 2 <= |s| by { BreakInside(s, end.value); }
    }
    forall j: nat | BreakAt(s, j) ensures end.Some? && end.value <= j {
      BreakIs(s, j);
      FindBefore(s, CRLF, 0, j);
    }
  }

  lemma BreakInside(s: seq<byte>, k: nat)
    requires BreakAt(s, k)
    ensures k + 2 <= |s|
  {
  }

  lemma BlankFound(s: seq<byte>)
    ensures var end := Find(s, BLANK_LINE, 0);
            if end.Some? then end.value + 4 <= |s| && BlankAt(s, end.value) else NoBlank(s)
  {
    hide Find, HasAt, BreakAt;
    var end := Find(s, BLANK_LINE, 0);
    if end.Some? {
      BreakIs(s, end.value);
      BreakInside(s, end.value + 2);
    }
    forall j: nat | BreakAt(s, j) && BreakAt(s, j + 2) ensures end.Some? && end.value <= j {
      BreakIs(s, j);
      FindBefore(s, BLANK_LINE, 0, j);
    }
  }

  lemma OneLine(s: seq<byte>, a: seq<byte>, b: seq<byte>)
    requires FirstLine(s, a) && FirstLine(s, b)
    ensures a == b && |a| + 2 <= |s| && !NoLine(s)
  {
    assert |a| == |b|;
    assert a == s[..|a|] && b == s[..|b|];
    BreakInside(s, |a|);
  }

  /* ----- words ----- */

  lemma {:induction false} SpacesPassed(line: seq<byte>, i: nat, k: nat)
    requires i <= k <= |line| && (forall t :: i <= t < k ==> White(line[t])) && (k == |line| || !White(line[k]))
    ensures SkipSpaces(line, i) == k
    decreases k - i
  {
    if i < k {
      SpacesPassed(line, i + 1, k);
    }
  }

  lemma {:induction false} WordPassed(line: seq<byte>, i: nat, k: nat)
    requires i <= k <= |line| && (forall t :: i <= t < k ==> !White(line[t])) && (k == |line| || White(line[k]))
    ensures SkipWord(line, i) == k
    decreases k - i
  {
    if i < k {
      WordPassed(line, i + 1, k);
    }
  }

  lemma {:induction false} PassesSpaces(line: seq<byte>, i: nat)
    requires i <= |line|
    ensures var k := SkipSpaces(line, i);
            (forall t :: i <= t < k ==> White(line[t])) && (k == |line| || !White(line[k]))
    decreases |line| - i
  {
    if i < |line| && White(line[i]) {
      PassesSpaces(line, i + 1);
    }
  }

  lemma {:induction false} PassesWord(line: seq<byte>, i: nat)
    requires i <= |line|
    ensures var k := SkipWord(line, i);
            (forall t :: i <= t < k ==> !White(line[t])) && (k == |line| || White(line[k]))
    decreases |line| - i
  {
    if i < |line| && !White(line[i]) {
      PassesWord(line, i + 1);
    }
  }

  /** The second word is 200 just when it stands there. */
  lemma SecondWordIs(line: seq<byte>)
    ensures SecondWord(line) == STATUS_OK <==> Says200(line)
  {
    hide SkipSpaces, SkipWord, White;
    if SecondWord(line) == STATUS_OK {
      var i := SkipSpaces(line, 0);
      var j := SkipWord(line, i);
      var k := SkipSpaces(line, j);
      PassesSpaces(line, 0);
      PassesWord(line, i);
      PassesSpaces(line, j);
      PassesWord(line, k);
      assert SkipWord(line, k) == k + 3;
      assert SecondAt(line, i, j, k);
    }
    if Says200(line) {
      SecondWordFound(line);
    }
  }

  lemma SecondWordFound(line: seq<byte>)
    requires Says200(line)
    ensures SecondWord(line) == STATUS_OK
  {
    hide SkipSpaces, SkipWord;
    var i: nat, j: nat, k: nat :| SecondAt(line, i, j, k) && k + 3 <= |line| && line[k..k + 3] == [0x32, 0x30, 0x30]
                   && (k + 3 == |line| || White(line[k + 3]));
    assert line[k + 1] == line[k..k + 3][1] && line[k + 2] == line[k..k + 3][2];
    SpacesPassed(line, 0, i);
    WordPassed(line, i, j);
    SpacesPassed(line, j, k);
    WordPassed(line, k, k + 3);
  }

  /* ----- the verdict ----- */

  lemma LinesAre(line: seq<byte>)
    ensures StartsWith(line, HTTP) <==> IsHttp(line)
    ensures StartsWithIcy(line) <==> IsIcyLine(line)
    ensures IsHeaderLine(line) <==> HeaderText(line)
  {
    if |line| >= 5 {
      assert line[0..5] == line[..5];
    }
    if COLON in line {
      var k :| 0 <= k < |line| && line[k] == COLON;
      assert line[k] == 0x3A;
    }
  }

  lemma HeaderBeginsIs(s: seq<byte>)
    ensures HeaderBegins(s) <==> StartsWith(s, CRLF) || (s != [] && LooksLikeAsciiHeader(s))
  {
    hide Find, HasAt, HeaderText, IsHeaderLine, BreakAt, FirstLine, NoLine;
    BreakIs(s, 0);
    LineFound(s);
    var end := Find(s, CRLF, 0);
    LinesAre(s);
    HeaderTextSome([]);
    forall line: seq<byte> | FirstLine(s, line) ensures end.Some? && line == s[..end.value] && !NoLine(s) {
      OneLine(s, line, if end.Some? then s[..end.value] else line);
    }
    if end.Some? {
      LinesAre(s[..end.value]);
      assert FirstLine(s, s[..end.value]);
    }
  }

  lemma HeaderTextSome(line: seq<byte>)
    ensures HeaderText(line) ==> line != []
  {
  }

  /** An empty line behind the first one is the first blank line. */
  lemma BlankBehind(s: seq<byte>, k: nat)
    requires k + 2 <= |s| && FirstLine(s, s[..k]) && StartsWith(s[k + 2..], CRLF)
    ensures k + 4 <= |s| && BlankAt(s, k) && s[k + 2..][2..] == s[k + 4..]
  {
    BreakIs(s[k + 2..], 0);
  }

  lemma VerdictStands(s: seq<byte>)
    ensures Stands(s, Verdict(Response(s)))
  {
    hide Find, SecondWord, StartsWith, StartsWithIcy, LooksLikeAsciiHeader, Says200, IsHttp, IsIcyLine;
    hide HeaderBegins, NoLine, NoBlank, BlankAt, FirstLine;
    LineFound(s);
    BlankFound(s);
    var end := Find(s, CRLF, 0);
    if end.Some? {
      var line := s[..end.value];
      SecondWordIs(line);
      LinesAre(line);
      HeaderBeginsIs(s[end.value + 2..]);
      OneLine(s, line, line);
      if StartsWith(s[end.value + 2..], CRLF) {
        BlankBehind(s, end.value);
        assert HeaderEnds(s, Total(s[end.value + 4..], Accepted([])));
      }
      assert LineLeads(s, line, Verdict(Response(s)));
    }
  }

  lemma BlankOrNot(s: seq<byte>, h: nat)
    requires BlankAt(s, h)
    ensures !NoBlank(s)
  {
    assert h < |s|;
  }

  lemma UndecidedIsOpen(s: seq<byte>)
    ensures Response(s).More? <==> Open(s)
  {
    hide Find, SecondWord, StartsWith, StartsWithIcy, LooksLikeAsciiHeader, Says200, IsHttp, IsIcyLine;
    hide HeaderBegins, NoLine, NoBlank, BlankAt, FirstLine;
    LineFound(s);
    BlankFound(s);
    var end, blank := Find(s, CRLF, 0), Find(s, BLANK_LINE, 0);
    if blank.Some? {
      BlankOrNot(s, blank.value);
    }
    if end.Some? {
      SecondWordIs(s[..end.value]);
      LinesAre(s[..end.value]);
      HeaderBeginsIs(s[end.value + 2..]);
      if StartsWith(s[end.value + 2..], CRLF) {
        BlankBehind(s, end.value);
        BlankOrNot(s, end.value);
      }
      forall line: seq<byte> | FirstLine(s, line) ensures line == s[..end.value] {
        OneLine(s, line, s[..end.value]);
      }
      OneLine(s, s[..end.value], s[..end.value]);
    }
  }

  lemma {:induction false} BelowIs(buffer: seq<byte>, chunks: seq<seq<byte>>, limit: nat)
    ensures Below(buffer, chunks, limit) <==> StaysBelow(buffer, chunks, limit)
    decreases |chunks|
  {
    hide Open, Response;
    if chunks != [] {
      UndecidedIsOpen(buffer + chunks[0]);
      BelowIs(buffer + chunks[0], chunks[1..], limit);
    }
  }

  lemma BreakStays(a: seq<byte>, b: seq<byte>, k: nat)
    requires k + 1 < |a|
    ensures BreakAt(a + b, k) <==> BreakAt(a, k)
  {
  }

  /** Bytes that are added keep the first line. */
  lemma LineStays(a: seq<byte>, b: seq<byte>, line: seq<byte>)
    requires FirstLine(a, line)
    ensures FirstLine(a + b, line)
  {
    forall j | 0 <= j <= |line| ensures BreakAt(a + b, j) <==> BreakAt(a, j) {
      BreakStays(a, b, j);
    }
  }

  lemma BlankStays(a: seq<byte>, b: seq<byte>, h: nat)
    requires BlankAt(a, h)
    ensures BlankAt(a + b, h) && (a + b)[h + 4..] == a[h + 4..] + b
  {
    forall j: nat | j + 1 < |a| ensures BreakAt(a + b, j) <==> BreakAt(a, j) {
      BreakStays(a, b, j);
    }
  }

  lemma IcyIsNotHttp(line: seq<byte>)
    requires IsIcyLine(line)
    ensures !IsHttp(line)
  {
  }

  /** A header that has ended still begins there. */
  lemma HeaderStays(a: seq<byte>, b: seq<byte>, line: seq<byte>, h: nat)
    requires FirstLine(a, line) && BlankAt(a, h) && |line| + 2 <= |a| && HeaderBegins(a[|line| + 2..])
    ensures HeaderBegins(a[|line| + 2..] + b)
  {
    hide HeaderText;
    var after := a[|line| + 2..];
    if !BreakAt(after, 0) {
      assert h != |line| && h >= |line| && h != |line| + 1;
      assert BreakAt(after, h - |line| - 2);
      var next: seq<byte> :| FirstLine(after, next) && HeaderText(next);
      LineStays(after, b, next);
    }
  }

  /** What an ICY response is decided to be, it stays: the bytes behind the status line or behind the blank line. */
  lemma IcyStands(a: seq<byte>, b: seq<byte>, line: seq<byte>)
    requires FirstLine(a, line) && Says200(line) && IsIcyLine(line) && !Response(a).More?
    ensures Response(a).Accepted? && Stands(a + b, Total(Response(a).payload + b, Accepted([])))
  {
    hide Response, Says200, IsIcyLine, NoBlank, FirstLine, NoLine, HeaderBegins;
    VerdictStands(a);
    var t := Verdict(Response(a));
    forall other: seq<byte> | FirstLine(a, other) ensures other == line {
      OneLine(a, other, line);
    }
    OneLine(a, line, line);
    LineStays(a, b, line);
    OneLine(a + b, line, line);
    assert !IsHttp(line) by { IcyIsNotHttp(line); }
    assert LineLeads(a, line, t);
    if t == Total(a[|line| + 2..], Accepted([])) {
      assert (a + b)[|line| + 2..] == a[|line| + 2..] + b;
    } else {
      var h :| BlankAt(a, h) && t == Total(a[h + 4..], Accepted([]));
      BlankStays(a, b, h);
      HeaderStays(a, b, line, h);
      assert (a + b)[|line| + 2..] == a[|line| + 2..] + b;
    }
  }

  /** While nothing is decided, or from a decision on, the parser stands as its bytes say. */
  lemma {:induction false} ChunksStand(buffer: seq<byte>, chunks: seq<seq<byte>>, limit: nat)
    requires StaysBelow(buffer, chunks, limit) && Response(buffer).More?
    ensures Stands(buffer + Concat(chunks), FeedAll(buffer, chunks, limit))
    decreases |chunks|
  {
    hide Response, Stands, Says200, IsIcyLine, FirstLine, IcyHeader;
    if chunks == [] {
      assert buffer + Concat(chunks) == buffer;
      VerdictStands(buffer);
    } else {
      var first, rest := buffer + chunks[0], Concat(chunks[1..]);
      assert first + rest == buffer + Concat(chunks);
      if Response(first).More? {
        ChunksStand(first, chunks[1..], limit);
      } else if IcyHeader(first + rest) {
        IcyLineOf(first, rest);
        var line: seq<byte> :| FirstLine(first, line) && Says200(line) && IsIcyLine(line);
        IcyStands(first, rest, line);
      } else {
        ResponseExtends(first, rest);
        VerdictStands(first + rest);
      }
    }
  }

  lemma IcyLineOf(a: seq<byte>, b: seq<byte>)
    requires IcyHeader(a + b) && !Response(a).More?
    ensures exists line: seq<byte> :: FirstLine(a, line) && Says200(line) && IsIcyLine(line)
  {
    hide Find, SecondWord, StartsWith, StartsWithIcy, LooksLikeAsciiHeader, Says200, IsIcyLine, FirstLine;
    StatusExtends(a, b);
    LineFound(a);
    var line := a[..StatusEnd(a) - 2];
    SecondWordIs(line);
    LinesAre(line);
  }

  /**
   * However the input is divided, as long as it stays below the limit while nothing is decided: the
   * parser rejects the status exactly when the first line is complete and its second word is not 200,
   * and the protocol exactly when that word is 200 and the line opens neither an HTTP nor an ICY
   * response. An HTTP response is accepted exactly when there is a blank line, with the bytes behind
   * it; an ICY response at once, or with its header behind the blank line.
   */
  lemma Verdicts(chunks: seq<seq<byte>>, limit: nat)
    requires Below([], chunks, limit)
    ensures Stands(Concat(chunks), FeedAll([], chunks, limit))
    ensures FeedAll([], chunks, limit).last == BadStatus <==>
            exists line: seq<byte> :: FirstLine(Concat(chunks), line) && !Says200(line)
    ensures FeedAll([], chunks, limit).last == Unsupported <==>
            exists line: seq<byte> ::
              FirstLine(Concat(chunks), line) && Says200(line) && !IsHttp(line) && !IsIcyLine(line)
    ensures FeedAll([], chunks, limit).last.Accepted? ==>
              exists line: seq<byte> :: FirstLine(Concat(chunks), line) && Says200(line)
    ensures forall line: seq<byte> :: FirstLine(Concat(chunks), line) && Says200(line) && IsHttp(line) ==>
              (FeedAll([], chunks, limit).last.Accepted? <==> !NoBlank(Concat(chunks)))
  {
    hide Says200, IsHttp, IsIcyLine, HeaderBegins, NoLine, NoBlank, BlankAt, FirstLine, FeedAll, StaysBelow;
    BelowIs([], chunks, limit);
    EmptyIsUndecided();
    assert [] + Concat(chunks) == Concat(chunks);
    ChunksStand([], chunks, limit);
    var s := Concat(chunks);
    forall line: seq<byte>, other: seq<byte> | FirstLine(s, line) && FirstLine(s, other)
      ensures other == line && !NoLine(s) && |line| + 2 <= |s|
    {
      OneLine(s, other, line);
    }
    forall h: nat | BlankAt(s, h) ensures !NoBlank(s) {
      BlankOrNot(s, h);
    }
  }
}
