/** The parser that separates the caster's response header from the correction stream, however it is chunked. */
module NtripResponse {
  import opened Bytes

  const CRLF: seq<byte> := [0x0D, 0x0A]
  const BLANK_LINE: seq<byte> := [0x0D, 0x0A, 0x0D, 0x0A]
  const HTTP: seq<byte> := [0x48, 0x54, 0x54, 0x50, 0x2F]
  const STATUS_OK: seq<byte> := [0x32, 0x30, 0x30]

  predicate HasAt(s: seq<byte>, pattern: seq<byte>, k: nat) {
    k + |pattern| <= |s| && s[k..k + |pattern|] == pattern
  }

  /** The first place from `from` on where the pattern stands. */
  function Find(s: seq<byte>, pattern: seq<byte>, from: nat): (k: Option<nat>)
    ensures k.Some? ==> from <= k.value && HasAt(s, pattern, k.value)
    decreases |s| - from
  {
    if HasAt(s, pattern, from) then Some(from)
    else if from >= |s| then None
    else Find(s, pattern, from + 1)
  }

  /** White space of a Latin-1 text. */
  predicate IsSpace(c: byte) { 0x09 <= c <= 0x0D || 0x1C <= c <= 0x20 || c == 0x85 || c == 0xA0 }

  function SkipSpaces(s: seq<byte>, i: nat): (k: nat)
    requires i <= |s|
    ensures i <= k <= |s|
    decreases |s| - i
  {
    if i < |s| && IsSpace(s[i]) then SkipSpaces(s, i + 1) else i
  }

  function SkipWord(s: seq<byte>, i: nat): (k: nat)
    requires i <= |s|
    ensures i <= k <= |s|
    decreases |s| - i
  {
    if i < |s| && !IsSpace(s[i]) then SkipWord(s, i + 1) else i
  }

  /** The second word of the line, empty when there is none. */
  function SecondWord(line: seq<byte>): seq<byte> {
    var start := SkipSpaces(line, SkipWord(line, SkipSpaces(line, 0)));
    line[start..SkipWord(line, start)]
  }

  predicate StartsWith(s: seq<byte>, prefix: seq<byte>) { HasAt(s, prefix, 0) }

  /** The line starts with the word ICY in letters of either case, and a space. */
  predicate StartsWithIcy(line: seq<byte>) {
    |line| >= 4 && line[0] in [0x49, 0x69] && line[1] in [0x43, 0x63] && line[2] in [0x59, 0x79] && line[3] == 0x20
  }

  predicate LooksLikeAsciiHeader(data: seq<byte>) {
    var end := Find(data, CRLF, 0);
    var line := if end.Some? then data[..end.value] else data;
    IsHeaderLine(line)
  }

  predicate IsHeaderLine(line: seq<byte>) {
    line != [] && COLON in line && forall k | 0 <= k < |line| :: line[k] == 0x09 || 32 <= line[k] <= 126
  }

  datatype Outcome = More | Accepted(payload: seq<byte>) | BadStatus | Unsupported | TooLarge

  function AfterHeader(buffer: seq<byte>): Outcome {
    match Find(buffer, BLANK_LINE, 0)
    case None => More
    case Some(end) => Accepted(buffer[end + 4..])
  }

  function AfterIcyStatus(buffer: seq<byte>, afterStatus: seq<byte>): Outcome {
    if StartsWith(afterStatus, CRLF) then Accepted(afterStatus[2..])
    else if afterStatus != [] && LooksLikeAsciiHeader(afterStatus) then AfterHeader(buffer)
    else Accepted(afterStatus)
  }

  /** What all the bytes so far say. */
  function Response(buffer: seq<byte>): Outcome {
    match Find(buffer, CRLF, 0)
    case None => More
    case Some(end) =>
      var line := buffer[..end];
      if SecondWord(line) != STATUS_OK then BadStatus
      else if StartsWith(line, HTTP) then AfterHeader(buffer)
      else if StartsWithIcy(line) then AfterIcyStatus(buffer, buffer[end + 2..])
      else Unsupported
  }

  class NtripResponseParser {
    var buffer: seq<byte>
    var complete: bool
    const maxHeaderSize: nat

    constructor (maxHeaderSize: nat)
      ensures buffer == [] && !complete && this.maxHeaderSize == maxHeaderSize
    {
      buffer, complete := [], false;
      this.maxHeaderSize := maxHeaderSize;
    }

    /** The stream's bytes in the chunk once the response is accepted; a rejected parser is not used again. */
    method Feed(data: seq<byte>) returns (r: Outcome)
      modifies this
      ensures r == FeedOutcome(old(buffer), old(complete), data, maxHeaderSize)
      ensures complete == (old(complete) || r.Accepted?)
      ensures buffer == if old(complete) then old(buffer) else if r.Accepted? then [] else old(buffer) + data
    {
      if complete {
        return Accepted(data);
      }
      buffer := buffer + data;
      if |buffer| > maxHeaderSize {
        return TooLarge;
      }
      var firstLineEnd := Find(buffer, CRLF, 0);
      if firstLineEnd.None? {
        return More;
      }
      var firstLine := buffer[..firstLineEnd.value];
      var statusOk := SecondWord(firstLine) == STATUS_OK;
      if !statusOk {
        return BadStatus;
      }
      var payload;
      if StartsWith(firstLine, HTTP) {
        var headerEnd := Find(buffer, BLANK_LINE, 0);
        if headerEnd.None? {
          return More;
        }
        payload := buffer[headerEnd.value + 4..];
      } else if StartsWithIcy(firstLine) {
        var afterStatus := buffer[firstLineEnd.value + 2..];
        if StartsWith(afterStatus, CRLF) {
          payload := afterStatus[2..];
        } else if afterStatus != [] && LooksLikeAsciiHeader(afterStatus) {
          var headerEnd := Find(buffer, BLANK_LINE, 0);
          if headerEnd.None? {
            return More;
          }
          payload := buffer[headerEnd.value + 4..];
        } else {
          payload := afterStatus;
        }
      } else {
        return Unsupported;
      }
      complete := true;
      buffer := [];
      r := Accepted(payload);
    }
  }

  function FeedOutcome(buffer: seq<byte>, complete: bool, data: seq<byte>, limit: nat): Outcome {
    if complete then Accepted(data)
    else if |buffer + data| > limit then TooLarge
    else Response(buffer + data)
  }

  /* ----- chunks ----- */

  lemma {:induction false} FindInPrefix(a: seq<byte>, b: seq<byte>, pattern: seq<byte>, from: nat)
    requires Find(a, pattern, from).Some?
    ensures Find(a + b, pattern, from) == Find(a, pattern, from)
    decreases |a| - from
  {
    if HasAt(a, pattern, from) {
      assert (a + b)[from..from + |pattern|] == a[from..from + |pattern|];
    } else {
      NotStraddling(a, b, pattern, from);
      FindInPrefix(a, b, pattern, from + 1);
    }
  }

  /** Where a later match fits into the prefix, an earlier one does as well. */
  lemma NotStraddling(a: seq<byte>, b: seq<byte>, pattern: seq<byte>, from: nat)
    requires Find(a, pattern, from).Some? && !HasAt(a, pattern, from)
    ensures !HasAt(a + b, pattern, from) && from < |a|
  {
    var k := Find(a, pattern, from).value;
    assert from + |pattern| <= k + |pattern| <= |a|;
    assert (a + b)[from..from + |pattern|] == a[from..from + |pattern|];
  }

  /** A match is found, or an earlier one. */
  lemma {:induction false} FindBefore(s: seq<byte>, pattern: seq<byte>, from: nat, k: nat)
    requires from <= k && HasAt(s, pattern, k) && pattern != []
    ensures Find(s, pattern, from).Some? && Find(s, pattern, from).value <= k
    decreases k - from
  {
    if !HasAt(s, pattern, from) {
      FindBefore(s, pattern, from + 1, k);
    }
  }

  /** The first line is there and opens an ICY response that is not refused. */
  predicate IsIcy(buffer: seq<byte>) {
    var end := Find(buffer, CRLF, 0);
    && end.Some? && SecondWord(buffer[..end.value]) == STATUS_OK
    && !StartsWith(buffer[..end.value], HTTP) && StartsWithIcy(buffer[..end.value])
  }

  /** Where the status line ends. */
  function StatusEnd(buffer: seq<byte>): (k: nat)
    requires Find(buffer, CRLF, 0).Some?
    ensures k <= |buffer|
  {
    Find(buffer, CRLF, 0).value + 2
  }

  /** An ICY status line, and after it an empty line or what looks like a header. */
  predicate IcyHeader(buffer: seq<byte>) {
    IsIcy(buffer) &&
    var after := buffer[StatusEnd(buffer)..];
    StartsWith(after, CRLF) || (after != [] && LooksLikeAsciiHeader(after))
  }

  /** More bytes do not change the status line. */
  lemma StatusExtends(a: seq<byte>, b: seq<byte>)
    requires Find(a, CRLF, 0).Some?
    ensures Find(a + b, CRLF, 0) == Find(a, CRLF, 0) && (a + b)[..StatusEnd(a) - 2] == a[..StatusEnd(a) - 2]
    ensures (a + b)[StatusEnd(a)..] == a[StatusEnd(a)..] + b && (IsIcy(a + b) <==> IsIcy(a))
  {
    hide Find, SecondWord, StartsWith, StartsWithIcy;
    FindInPrefix(a, b, CRLF, 0);
  }

  lemma StartsStill(a: seq<byte>, b: seq<byte>)
    requires StartsWith(a, CRLF)
    ensures StartsWith(a + b, CRLF)
  {
    assert (a + b)[0..2] == a[0..2];
  }

  /** A blank line begins with the end of the status line, or stands behind it. */
  lemma BlankPosition(buffer: seq<byte>)
    requires Find(buffer, CRLF, 0).Some? && Find(buffer, BLANK_LINE, 0).Some?
    ensures var k, h := StatusEnd(buffer), Find(buffer, BLANK_LINE, 0).value;
            if h < k then StartsWith(buffer[k..], CRLF) else HasAt(buffer[k..], CRLF, h - k)
  {
    hide Find;
    var k, h := StatusEnd(buffer), Find(buffer, BLANK_LINE, 0).value;
    assert buffer[h..h + 2] == BLANK_LINE[..2] == CRLF;
    assert buffer[h + 2..h + 4] == BLANK_LINE[2..] == CRLF;
    FindBefore(buffer, CRLF, 0, h);
    assert buffer[k - 2..k] == CRLF && buffer[k - 1] == 0x0A && buffer[h] == 0x0D;
    assert h < k ==> h + 2 == k;
    assert h < k ==> buffer[k..][0..2] == buffer[h + 2..h + 4];
    assert h >= k ==> buffer[k..][h - k..h - k + 2] == buffer[h..h + 2];
  }

  /** When no empty line follows the status line, a blank line ends the first header line. */
  lemma HeaderComplete(buffer: seq<byte>)
    requires Find(buffer, CRLF, 0).Some? && Find(buffer, BLANK_LINE, 0).Some?
    requires !StartsWith(buffer[StatusEnd(buffer)..], CRLF)
    ensures Find(buffer[StatusEnd(buffer)..], CRLF, 0).Some?
  {
    hide Find, StartsWith, HasAt;
    BlankPosition(buffer);
    FindBefore(buffer[StatusEnd(buffer)..], CRLF, 0, Find(buffer, BLANK_LINE, 0).value - StatusEnd(buffer));
  }

  /** A complete first header line looks the same whatever follows. */
  lemma LooksStill(a: seq<byte>, b: seq<byte>)
    requires Find(a, CRLF, 0).Some?
    ensures LooksLikeAsciiHeader(a + b) <==> LooksLikeAsciiHeader(a)
  {
    hide Find, IsHeaderLine;
    FindInPrefix(a, b, CRLF, 0);
    var end := Find(a, CRLF, 0).value;
    assert (a + b)[..end] == a[..end];
  }

  /**
   * What is decided stays decided, and an accepted response hands on every later byte, unless an ICY
   * header is at stake.
   */
  lemma ResponseExtends(a: seq<byte>, b: seq<byte>)
    requires !Response(a).More? && !IcyHeader(a + b)
    ensures Response(a + b) == if Response(a).Accepted? then Accepted(Response(a).payload + b) else Response(a)
  {
    hide Find, SecondWord, StartsWith, StartsWithIcy, LooksLikeAsciiHeader;
    StatusExtends(a, b);
    if IsIcy(a) {
      IcyExtends(a, b);
    } else if Response(a).Accepted? {
      FindInPrefix(a, b, BLANK_LINE, 0);
      var h := Find(a, BLANK_LINE, 0).value;
      assert (a + b)[h + 4..] == a[h + 4..] + b;
    }
  }

  /** Without a header all that follows the status line is handed on. */
  lemma IcyExtends(a: seq<byte>, b: seq<byte>)
    requires IsIcy(a) && !Response(a).More? && !IcyHeader(a + b)
    ensures Response(a) == Accepted(a[StatusEnd(a)..]) && Response(a + b) == Accepted(a[StatusEnd(a)..] + b)
  {
    hide Find, SecondWord, StartsWith, StartsWithIcy, LooksLikeAsciiHeader;
    StatusExtends(a, b);
    var after := a[StatusEnd(a)..];
    if StartsWith(after, CRLF) {
      StartsStill(after, b);
    } else if after != [] && LooksLikeAsciiHeader(after) {
      HeaderComplete(a);
      LooksStill(after, b);
    }
  }

  /** While nothing is decided the buffer stays within the limit. */
  predicate StaysBelow(buffer: seq<byte>, chunks: seq<seq<byte>>, limit: nat)
    decreases |chunks|
  {
    chunks == [] ||
    (|buffer + chunks[0]| <= limit &&
     (Response(buffer + chunks[0]).More? ==> StaysBelow(buffer + chunks[0], chunks[1..], limit)))
  }

  /** All that a parser hands on, and how it stands at the end. */
  datatype Total = Total(output: seq<byte>, last: Outcome)

  /** After the response is accepted every chunk is handed on. */
  function FeedAll(buffer: seq<byte>, chunks: seq<seq<byte>>, limit: nat): Total
    decreases |chunks|
  {
    if chunks == [] then Total([], More)
    else
      var r := FeedOutcome(buffer, false, chunks[0], limit);
      if r.More? then FeedAll(buffer + chunks[0], chunks[1..], limit)
      else if r.Accepted? then Total(r.payload + Concat(chunks[1..]), Accepted([]))
      else Total([], r)
  }

  function Verdict(r: Outcome): Total {
    if r.Accepted? then Total(r.payload, Accepted([])) else Total([], r)
  }

  /**
   * Below the header limit the chunks do not matter, except for an ICY response with a header: the
   * bytes handed on, or the reason for a rejection, are those of the whole input.
   */
  lemma {:induction false} ChunksDoNotMatter(buffer: seq<byte>, chunks: seq<seq<byte>>, limit: nat)
    requires StaysBelow(buffer, chunks, limit) && !IcyHeader(buffer + Concat(chunks)) && Response(buffer).More?
    ensures FeedAll(buffer, chunks, limit) == Verdict(Response(buffer + Concat(chunks)))
    decreases |chunks|
  {
    hide Response, IcyHeader;
    if chunks == [] {
      assert buffer + Concat(chunks) == buffer;
    } else {
      var first, rest := buffer + chunks[0], Concat(chunks[1..]);
      assert first + rest == buffer + Concat(chunks);
      if Response(first).More? {
        ChunksDoNotMatter(first, chunks[1..], limit);
      } else {
        ResponseExtends(first, rest);
      }
    }
  }

  /** An accepted HTTP response yields exactly the bytes after the first blank line. */
  lemma AcceptedHttp(chunks: seq<seq<byte>>, limit: nat)
    requires StaysBelow([], chunks, limit)
    requires var s := Concat(chunks); var end := Find(s, CRLF, 0);
             end.Some? && StartsWith(s[..end.value], HTTP) && SecondWord(s[..end.value]) == STATUS_OK
    ensures var s := Concat(chunks); var blank := Find(s, BLANK_LINE, 0);
            FeedAll([], chunks, limit) == if blank.Some? then Total(s[blank.value + 4..], Accepted([]))
                else Total([], More)
  {
    hide Find, StartsWith, SecondWord, FeedAll, StaysBelow;
    assert [] + Concat(chunks) == Concat(chunks);
    EmptyIsUndecided();
    ChunksDoNotMatter([], chunks, limit);
  }

  lemma EmptyIsUndecided()
    ensures Response([]) == More
  {
  }

  /* ----- when the chunks matter ----- */

  /** The division that shows it: the status line, and the rest. */
  function AtStatus(s: seq<byte>): seq<seq<byte>>
    requires Find(s, CRLF, 0).Some?
  {
    [s[..StatusEnd(s)], s[StatusEnd(s)..]]
  }

  /** The status line alone is accepted, so that all the rest is handed on. */
  lemma StatusLineAccepted(s: seq<byte>)
    requires IsIcy(s)
    ensures Response(s[..StatusEnd(s)]) == Accepted([])
  {
    hide Find, SecondWord, StartsWith, StartsWithIcy;
    var k := StatusEnd(s);
    var line := s[..k];
    assert line + s[k..] == s;
    assert line[k - 2..k] == s[k - 2..k] == CRLF;
    FindBefore(line, CRLF, 0, k - 2);
    StatusExtends(line, s[k..]);
    assert line[k..] == [];
    EmptyStartsNot();
  }

  lemma EmptyStartsNot()
    ensures !StartsWith([], CRLF)
  {
  }

  lemma HeaderNotHandedOn(s: seq<byte>)
    requires IcyHeader(s)
    ensures Response(s).More? || (Response(s).Accepted? && |Response(s).payload| < |s| - StatusEnd(s))
  {
    hide Find, SecondWord, StartsWithIcy, LooksLikeAsciiHeader;
    if Find(s, BLANK_LINE, 0).Some? {
      var h := Find(s, BLANK_LINE, 0).value;
      assert s[h..h + 2] == BLANK_LINE[..2] == CRLF;
      FindBefore(s, CRLF, 0, h);
    }
  }

  lemma TwoParts(s: seq<byte>, limit: nat)
    requires IcyHeader(s) && StatusEnd(s) <= limit
    ensures Concat(AtStatus(s)) == s && StaysBelow([], AtStatus(s), limit)
    ensures FeedAll([], AtStatus(s), limit) == Total(s[StatusEnd(s)..], Accepted([]))
  {
    hide Find, Response, IcyHeader, IsIcy;
    IcyHeaderIsIcy(s);
    IcyHasStatus(s);
    var parts := AtStatus(s);
    StatusLineAccepted(s);
    assert parts[1..] == [parts[1]];
    var rest: seq<seq<byte>> := [parts[1]];
    assert rest[1..] == [] && Concat(rest) == parts[1];
    assert [] + parts[0] == parts[0];
  }

  lemma IcyHeaderIsIcy(s: seq<byte>)
    requires IcyHeader(s)
    ensures IsIcy(s)
  {
  }

  /** A status line that ends behind the limit cannot have been read below it. */
  lemma {:induction false} StatusWithinLimit(buffer: seq<byte>, chunks: seq<seq<byte>>, limit: nat)
    requires StaysBelow(buffer, chunks, limit) && |buffer| <= limit && Find(buffer + Concat(chunks), CRLF, 0).Some?
    ensures StatusEnd(buffer + Concat(chunks)) <= limit
    decreases |chunks|
  {
    hide Find;
    if chunks == [] {
      assert buffer + Concat(chunks) == buffer;
    } else {
      var first, rest := buffer + chunks[0], Concat(chunks[1..]);
      assert first + rest == buffer + Concat(chunks);
      if Find(first, CRLF, 0).Some? {
        FindInPrefix(first, rest, CRLF, 0);
      } else {
        StatusWithinLimit(first, chunks[1..], limit);
      }
    }
  }

  /**
   * Every division of the input that stays below the limit gives what the whole input gives, if and
   * only if there is no ICY status line with a header after it that ends within the limit.
   */
  lemma ChunksMatterExactly(s: seq<byte>, limit: nat)
    ensures (forall chunks: seq<seq<byte>> :: Concat(chunks) == s && StaysBelow([], chunks, limit) ==>
                                FeedAll([], chunks, limit) == Verdict(Response(s)))
            <==> !(IcyHeader(s) && StatusEnd(s) <= limit)
  {
    hide Response, Find, FeedAll, StaysBelow, StartsWith, StartsWithIcy, SecondWord, LooksLikeAsciiHeader;
    if IcyHeader(s) && StatusEnd(s) <= limit {
      TwoParts(s, limit);
      HeaderNotHandedOn(s);
    } else {
      forall chunks: seq<seq<byte>> | Concat(chunks) == s && StaysBelow([], chunks, limit)
        ensures FeedAll([], chunks, limit) == Verdict(Response(s))
      {
        assert [] + Concat(chunks) == s;
        if IcyHeader(s) {
          StatusWithinLimit([], chunks, limit);
        } else {
          EmptyIsUndecided();
          ChunksDoNotMatter([], chunks, limit);
        }
      }
    }
  }

  lemma IcyHasStatus(s: seq<byte>)
    requires IsIcy(s)
    ensures Find(s, CRLF, 0).Some?
  {
  }

  /* ----- one such input ----- */

  const ICY_STATUS: seq<byte> := [0x49, 0x43, 0x59, 0x20, 0x32, 0x30, 0x30, 0x0D, 0x0A]
  const FIRST_BYTES: seq<byte> := [0x41, 0x3A]

  lemma {:induction false} FindAt(s: seq<byte>, pattern: seq<byte>, from: nat, k: nat)
    requires from <= k && HasAt(s, pattern, k) && forall i :: from <= i < k ==> !HasAt(s, pattern, i)
    ensures Find(s, pattern, from) == Some(k)
    decreases k - from
  {
    if from < k {
      FindAt(s, pattern, from + 1, k);
    }
  }

  lemma {:induction false} FindNowhere(s: seq<byte>, pattern: seq<byte>, from: nat)
    requires forall i :: from <= i ==> !HasAt(s, pattern, i)
    ensures Find(s, pattern, from) == None
    decreases |s| - from
  {
    if from < |s| {
      FindNowhere(s, pattern, from + 1);
    }
  }

  lemma Differs(s: seq<byte>, pattern: seq<byte>, i: nat, k: nat)
    requires k < |pattern| && (i + |pattern| <= |s| ==> s[i + k] != pattern[k])
    ensures !HasAt(s, pattern, i)
  {
    if i + |pattern| <= |s| {
      assert s[i..i + |pattern|][k] == s[i + k];
    }
  }

  lemma IcyLine(rest: seq<byte>)
    ensures Find(ICY_STATUS + rest, CRLF, 0) == Some(7) && IsIcy(ICY_STATUS + rest)
  {
    var s := ICY_STATUS + rest;
    assert s[7..9] == CRLF;
    forall i | 0 <= i < 7 ensures !HasAt(s, CRLF, i) {
      Differs(s, CRLF, i, 0);
    }
    FindAt(s, CRLF, 0, 7);
    IcyWords(s[..7]);
  }

  lemma IcyWords(line: seq<byte>)
    requires line == [0x49, 0x43, 0x59, 0x20, 0x32, 0x30, 0x30]
    ensures SecondWord(line) == STATUS_OK && !StartsWith(line, HTTP) && StartsWithIcy(line)
  {
    assert SkipSpaces(line, 0) == 0;
    assert SkipWord(line, 2) == 3;
    assert SkipWord(line, 0) == 3;
    assert SkipSpaces(line, 3) == 4;
    assert SkipWord(line, 6) == 7;
    assert SkipWord(line, 4) == 7;
    assert line[4..7] == STATUS_OK;
    assert line[0..5][0] != HTTP[0];
  }

  /** The same ICY response in one chunk and in two: held back as a header, or handed on. */
  lemma IcyChunksMatter()
    ensures var s := ICY_STATUS + FIRST_BYTES;
            && IcyHeader(s) && Concat([s]) == Concat([ICY_STATUS, FIRST_BYTES]) == s
            && FeedAll([], [s], 100) == Total([], More)
            && FeedAll([], [ICY_STATUS, FIRST_BYTES], 100) == Total(FIRST_BYTES, Accepted([]))
  {
    hide SecondWord, StartsWith, StartsWithIcy, Find, LooksLikeAsciiHeader, StaysBelow, AfterHeader;
    var s := ICY_STATUS + FIRST_BYTES;
    IcyLine(FIRST_BYTES);
    FirstBytesLookLikeHeader();
    assert s[9..] == FIRST_BYTES && s[..9] == ICY_STATUS;
    TwoParts(s, 100);
    assert [] + s == s;
    var whole: seq<seq<byte>> := [s];
    assert whole[1..] == [];
  }

  lemma FirstBytesLookLikeHeader()
    ensures LooksLikeAsciiHeader(FIRST_BYTES) && !StartsWith(FIRST_BYTES, CRLF)
    ensures AfterHeader(ICY_STATUS + FIRST_BYTES) == More
  {
    var s := ICY_STATUS + FIRST_BYTES;
    forall i: nat ensures !HasAt(FIRST_BYTES, CRLF, i) && !HasAt(s, BLANK_LINE, i) {
      Differs(FIRST_BYTES, CRLF, i, 0);
      Differs(s, BLANK_LINE, i, if i == 7 then 2 else 0);
    }
    FindNowhere(FIRST_BYTES, CRLF, 0);
    FindNowhere(s, BLANK_LINE, 0);
  }
}
