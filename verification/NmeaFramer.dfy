/** The framer that cuts NMEA sentences out of the serial stream, however it is chunked. */
module NmeaFramer {
  import opened Bytes

  const DOLLAR: byte := 0x24
  const NEWLINE: byte := 0x0A

  /** The first position of `c` from `from` on, or the length. */
  function Find(s: seq<byte>, c: byte, from: nat): (k: nat)
    requires from <= |s|
    ensures from <= k <= |s| && (k < |s| ==> s[k] == c)
    decreases |s| - from
  {
    if from == |s| || s[from] == c then from else Find(s, c, from + 1)
  }

  /** The last position of `c` below `n`, or `n` when there is none. */
  function FindLast(s: seq<byte>, c: byte, n: nat): (k: nat)
    requires n <= |s|
    ensures k <= n && (k < n ==> s[k] == c)
  {
    if n == 0 then 0
    else if s[n - 1] == c then n - 1
    else
      var k := FindLast(s, c, n - 1);
      if k == n - 1 then n else k
  }

  lemma {:induction false} FindFirst(s: seq<byte>, c: byte, from: nat)
    requires from <= |s|
    ensures forall i :: from <= i < Find(s, c, from) ==> s[i] != c
    decreases |s| - from
  {
    if from < |s| && s[from] != c {
      FindFirst(s, c, from + 1);
    }
  }

  lemma {:induction false} FindLastIsLast(s: seq<byte>, c: byte, n: nat)
    requires n <= |s|
    ensures var k := FindLast(s, c, n);
            if k == n then forall i :: 0 <= i < n ==> s[i] != c else forall i :: k < i < n ==> s[i] != c
    decreases n
  {
    if n > 0 && s[n - 1] != c {
      FindLastIsLast(s, c, n - 1);
    }
  }

  predicate IsSpace(c: byte) { 0x09 <= c <= 0x0D || 0x1C <= c <= 0x20 }

  /** Decoding as ASCII drops every other byte. */
  function Ascii(s: seq<byte>): seq<byte> {
    if s == [] then [] else (if s[0] < 0x80 then [s[0]] else []) + Ascii(s[1..])
  }

  function StripLeft(s: seq<byte>): seq<byte> {
    if s != [] && IsSpace(s[0]) then StripLeft(s[1..]) else s
  }

  function StripRight(s: seq<byte>): seq<byte> {
    if s != [] && IsSpace(s[|s| - 1]) then StripRight(s[..|s| - 1]) else s
  }

  function Clean(line: seq<byte>): seq<byte> { StripRight(StripLeft(Ascii(line))) }

  /** The sentence of a raw line, if there is one. */
  function Sentence(line: seq<byte>): seq<seq<byte>> {
    var text := Clean(line);
    if text != [] && text[0] == DOLLAR then [text] else []
  }

  /* ----- framing without a limit ----- */

  datatype Framed = Framed(sentences: seq<seq<byte>>, residue: seq<byte>)

  function Frame(buffer: seq<byte>): Framed
    decreases |buffer|, 1
  {
    var start := Find(buffer, DOLLAR, 0);
    if start == |buffer| then Framed([], buffer) else FrameSentence(buffer[start..])
  }

  /** The buffer starts with a dollar. */
  function FrameSentence(rest: seq<byte>): Framed
    requires rest != []
    decreases |rest|, 0
  {
    var end := Find(rest, NEWLINE, 1);
    if end == |rest| then Framed([], rest) else Joined(Sentence(rest[..end + 1]), Frame(rest[end + 1..]))
  }

  function Joined(sentences: seq<seq<byte>>, next: Framed): Framed {
    Framed(sentences + next.sentences, next.residue)
  }

  lemma JoinedTwice(a: seq<seq<byte>>, b: seq<seq<byte>>, next: Framed)
    ensures Joined(a, Joined(b, next)) == Joined(a + b, next)
  {
    assert a + (b + next.sentences) == (a + b) + next.sentences;
  }

  lemma JoinedNone(next: Framed)
    ensures Joined([], next) == next
  {
    assert [] + next.sentences == next.sentences;
  }

  lemma {:induction false} FindInPrefix(a: seq<byte>, b: seq<byte>, c: byte, from: nat)
    requires from <= |a| && Find(a, c, from) < |a|
    ensures Find(a + b, c, from) == Find(a, c, from)
    decreases |a| - from
  {
    if a[from] != c {
      FindInPrefix(a, b, c, from + 1);
    }
  }

  /** What starts with a dollar is framed from there. */
  lemma FramedFromDollar(rest: seq<byte>)
    requires rest != [] && rest[0] == DOLLAR
    ensures Find(rest, DOLLAR, 0) == 0 && Frame(rest) == FrameSentence(rest)
  {
    hide FrameSentence;
    assert rest[0..] == rest;
  }

  /** Framing the two halves of the input one after the other is framing the whole. */
  lemma {:induction false} FrameConcat(a: seq<byte>, b: seq<byte>)
    ensures Frame(a + b) == Joined(Frame(a).sentences, Frame(Frame(a).residue + b))
    decreases |a|, 1
  {
    hide Find, FrameSentence, Joined;
    var start := Find(a, DOLLAR, 0);
    if start < |a| {
      FindInPrefix(a, b, DOLLAR, 0);
      assert (a + b)[start..] == a[start..] + b;
      SentenceConcat(a[start..], b);
    } else {
      JoinedNone(Frame(a + b));
    }
  }

  lemma {:induction false} SentenceConcat(rest: seq<byte>, b: seq<byte>)
    requires rest != [] && rest[0] == DOLLAR
    ensures FrameSentence(rest + b) == Joined(FrameSentence(rest).sentences, Frame(FrameSentence(rest).residue + b))
    decreases |rest|, 0
  {
    hide Find, Frame, Sentence, Joined;
    var end := Find(rest, NEWLINE, 1);
    if end < |rest| {
      FindInPrefix(rest, b, NEWLINE, 1);
      assert (rest + b)[..end + 1] == rest[..end + 1];
      assert (rest + b)[end + 1..] == rest[end + 1..] + b;
      var line, next := Sentence(rest[..end + 1]), Frame(rest[end + 1..]);
      FrameConcat(rest[end + 1..], b);
      JoinedTwice(line, next.sentences, Frame(next.residue + b));
      JoinedParts(line, next);
    } else {
      FramedFromDollar(rest + b);
      JoinedNone(Frame(rest + b));
    }
  }

  lemma JoinedParts(line: seq<seq<byte>>, next: Framed)
    ensures Joined(line, next).sentences == line + next.sentences && Joined(line, next).residue == next.residue
  {
  }

  /** A raw line that starts with a dollar is a sentence. */
  lemma LineIsSentence(line: seq<byte>)
    requires line != [] && line[0] == DOLLAR
    ensures Sentence(line) == [Clean(line)]
  {
    var text := Ascii(line);
    assert text[0] == DOLLAR;
    StripKeepsFirst(text);
  }

  lemma {:induction false} StripKeepsFirst(s: seq<byte>)
    requires s != [] && !IsSpace(s[0])
    ensures StripRight(s) != [] && StripRight(s)[0] == s[0]
    decreases |s|
  {
    if IsSpace(s[|s| - 1]) {
      StripKeepsFirst(s[..|s| - 1]);
    }
  }

  lemma {:induction false} AsciiAll(s: seq<byte>)
    requires forall k :: 0 <= k < |s| ==> s[k] < 0x80
    ensures Ascii(s) == s
  {
    if s != [] {
      AsciiAll(s[1..]);
    }
  }

  /** A byte beyond ASCII is dropped, and no other. */
  lemma {:induction false} AsciiParts(a: seq<byte>, b: seq<byte>, c: byte)
    ensures Ascii(a + b) == Ascii(a) + Ascii(b) && Ascii([c]) == if c < 128 then [c] else []
    decreases |a|
  {
    if a == [] {
      assert a + b == b;
    } else {
      assert (a + b)[1..] == a[1..] + b;
      AsciiParts(a[1..], b, c);
    }
    AsciiOne(c);
  }

  lemma AsciiOne(c: byte)
    ensures Ascii([c]) == if c < 128 then [c] else []
  {
    assert [c][1..] == [];
  }

  predicate White(s: seq<byte>) { forall k :: 0 <= k < |s| ==> 0x09 <= s[k] <= 0x0D || 0x1C <= s[k] <= 0x20 }

  /** A text that neither begins nor ends with white space. */
  predicate Trimmed(text: seq<byte>) { text != [] && !White([text[0]]) && !White([text[|text| - 1]]) }

  lemma {:induction false} StripsRight(text: seq<byte>, b: seq<byte>)
    requires White(b) && Trimmed(text)
    ensures StripRight(text + b) == text
    decreases |b|
  {
    if b == [] {
      assert text + b == text;
    } else {
      assert (text + b)[..|text + b| - 1] == text + b[..|b| - 1];
      StripsRight(text, b[..|b| - 1]);
    }
  }

  /** White space around a text is dropped. */
  lemma CleanIs(a: seq<byte>, text: seq<byte>, b: seq<byte>)
    requires White(a) && White(b) && Trimmed(text) && forall k :: 0 <= k < |text| ==> text[k] < 0x80
    ensures Clean(a + text + b) == text
  {
    AsciiAll(a + text + b);
    assert a + text + b == a + (text + b);
    StripsRight(text, b);
    StripsLeftOfAll(a, text, b);
  }

  lemma {:induction false} StripsLeftOfAll(a: seq<byte>, text: seq<byte>, b: seq<byte>)
    requires White(a) && Trimmed(text)
    ensures StripLeft(a + (text + b)) == text + b
    decreases |a|
  {
    if a == [] {
      assert a + (text + b) == text + b;
    } else {
      assert (a + (text + b))[1..] == a[1..] + (text + b);
      StripsLeftOfAll(a[1..], text, b);
    }
  }

  lemma {:induction false} FindIs(s: seq<byte>, c: byte, from: nat, k: nat)
    requires from <= k < |s| && s[k] == c && forall i :: from <= i < k ==> s[i] != c
    ensures Find(s, c, from) == k
    decreases k - from
  {
    if from < k {
      FindIs(s, c, from + 1, k);
    }
  }

  /**
   * Noise, a line that starts with a dollar, and whatever follows: the line without the bytes beyond
   * ASCII and the white space around it is delivered, and framing goes on after it.
   */
  lemma LineDelivered(noise: seq<byte>, line: seq<byte>, rest: seq<byte>)
    requires forall k :: 0 <= k < |noise| ==> noise[k] != 0x24
    requires line != [] && line[0] == 0x24 && forall k :: 0 <= k < |line| ==> line[k] != 0x0A
    ensures Frame(noise + line + [0x0A] + rest) == Joined([Clean(line + [0x0A])], Frame(rest))
  {
    hide Find, Clean, Joined;
    var all := noise + line + [0x0A] + rest;
    FindIs(all, DOLLAR, 0, |noise|);
    assert all[|noise|..] == line + [0x0A] + rest;
    FindIs(line + [0x0A] + rest, NEWLINE, 1, |line|);
    assert (line + [0x0A] + rest)[..|line| + 1] == line + [0x0A] && (line + [0x0A] + rest)[|line| + 1..] == rest;
    LineIsSentence(line + [0x0A]);
  }

  /** A sentence between noise and white space with a newline is delivered as it was sent. */
  lemma SentenceDelivered(noise: seq<byte>, text: seq<byte>, white: seq<byte>, rest: seq<byte>)
    requires forall k :: 0 <= k < |noise| ==> noise[k] != 0x24
    requires Trimmed(text) && text[0] == 0x24 && White(white)
    requires forall k :: 0 <= k < |text| ==> text[k] < 0x80 && text[k] != 0x0A
    requires forall k :: 0 <= k < |white| ==> white[k] != 0x0A
    ensures Frame(noise + text + white + [0x0A] + rest) == Joined([text], Frame(rest))
  {
    hide Clean, Joined, Frame;
    LineDelivered(noise, text + white, rest);
    assert noise + (text + white) + [0x0A] + rest == noise + text + white + [0x0A] + rest;
    CleanIs([], text, white + [0x0A]);
    assert [] + text + (white + [0x0A]) == text + white + [0x0A];
  }

  /** An input without a whole line that starts with a dollar is kept. */
  lemma NothingDelivered(noise: seq<byte>, start: seq<byte>)
    requires forall k :: 0 <= k < |noise| ==> noise[k] != 0x24
    requires start == [] || (start[0] == 0x24 && forall k :: 0 <= k < |start| ==> start[k] != 0x0A)
    ensures Frame(noise + start) == Framed([], if start == [] then noise else start)
  {
    var all := noise + start;
    if start == [] {
      assert all == noise;
      FindNone(noise, DOLLAR, 0);
    } else {
      FindIs(all, DOLLAR, 0, |noise|);
      assert all[|noise|..] == start;
      FindNone(start, NEWLINE, 1);
    }
  }

  lemma {:induction false} FindNone(s: seq<byte>, c: byte, from: nat)
    requires from <= |s| && forall i :: from <= i < |s| ==> s[i] != c
    ensures Find(s, c, from) == |s|
    decreases |s| - from
  {
    if from < |s| {
      FindNone(s, c, from + 1);
    }
  }

  /* ----- the limit ----- */

  /** What is kept of a residue: all of it within the limit, else the newest start of a sentence, or nothing. */
  function Trim(residue: seq<byte>, limit: nat): seq<byte> {
    if |residue| <= limit then residue
    else
      var newest := FindLast(residue, DOLLAR, |residue|);
      if 0 < newest < |residue| then residue[newest..] else []
  }

  predicate NoDollarBehind(s: seq<byte>, k: nat) { forall i :: k < i < |s| ==> s[i] != 0x24 }

  /** Over the limit what is kept begins with the newest dollar behind the first byte, if there is one. */
  lemma TrimIs(residue: seq<byte>, limit: nat, k: nat)
    ensures |residue| <= limit ==> Trim(residue, limit) == residue
    ensures |residue| > limit && 0 < k < |residue| && residue[k] == 0x24 && NoDollarBehind(residue, k) ==>
              Trim(residue, limit) == residue[k..]
    ensures |residue| > limit && NoDollarBehind(residue, 0) ==> Trim(residue, limit) == []
  {
    FindLastIsLast(residue, DOLLAR, |residue|);
  }

  function Fed(buffer: seq<byte>, data: seq<byte>, limit: nat): Framed {
    var f := Frame(buffer + data);
    Framed(f.sentences, Trim(f.residue, limit))
  }

  /** No complete sentence, and within the limit unless it is all one sentence. */
  ghost predicate Retained(buffer: seq<byte>, limit: nat) {
    && (forall i, j :: 0 <= i < j < |buffer| && buffer[i] == DOLLAR ==> buffer[j] != NEWLINE)
    && (|buffer| <= limit || (buffer[0] == DOLLAR && forall i :: 0 < i < |buffer| ==> buffer[i] != DOLLAR))
  }

  /** No dollar, or a dollar first and no newline after it. */
  predicate Incomplete(r: seq<byte>) {
    Find(r, DOLLAR, 0) == |r| || (r[0] == DOLLAR && Find(r, NEWLINE, 1) == |r|)
  }

  predicate IsSuffix(r: seq<byte>, s: seq<byte>) { |r| <= |s| && s[|s| - |r|..] == r }

  lemma SuffixOfRest(r: seq<byte>, s: seq<byte>, k: nat)
    requires k <= |s| && IsSuffix(r, s[k..])
    ensures IsSuffix(r, s)
  {
  }

  /** The residue is the end of the input, and has no complete sentence. */
  lemma {:induction false} ResidueIsSuffix(buffer: seq<byte>)
    ensures IsSuffix(Frame(buffer).residue, buffer) && Incomplete(Frame(buffer).residue)
    decreases |buffer|, 1
  {
    hide Find, FrameSentence;
    var start := Find(buffer, DOLLAR, 0);
    if start < |buffer| {
      SentenceResidue(buffer[start..]);
      SuffixOfRest(Frame(buffer).residue, buffer, start);
    }
  }

  lemma {:induction false} SentenceResidue(rest: seq<byte>)
    requires rest != [] && rest[0] == DOLLAR
    ensures IsSuffix(FrameSentence(rest).residue, rest) && Incomplete(FrameSentence(rest).residue)
    decreases |rest|, 0
  {
    hide Find, Frame, Sentence;
    var end := Find(rest, NEWLINE, 1);
    if end < |rest| {
      ResidueIsSuffix(rest[end + 1..]);
      SuffixOfRest(FrameSentence(rest).residue, rest, end + 1);
    }
  }

  lemma TrimRetained(residue: seq<byte>, limit: nat)
    requires Incomplete(residue)
    ensures Retained(Trim(residue, limit), limit)
  {
    hide Find;
    var newest := FindLast(residue, DOLLAR, |residue|);
    FindFirst(residue, DOLLAR, 0);
    if residue != [] {
      FindFirst(residue, NEWLINE, 1);
    }
    FindLastIsLast(residue, DOLLAR, |residue|);
    if |residue| > limit && 0 < newest < |residue| {
      var kept := residue[newest..];
      assert forall i | 0 <= i < |kept| :: kept[i] == residue[newest + i];
    }
  }

  /** After a chunk the buffer holds at most the limit and the chunk. */
  lemma RetainedBound(buffer: seq<byte>, data: seq<byte>, limit: nat)
    requires Retained(buffer, limit)
    ensures Retained(Fed(buffer, data, limit).residue, limit)
    ensures |Fed(buffer, data, limit).residue| <= limit + |data|
  {
    hide Frame;
    var all := buffer + data;
    var r := Frame(all).residue;
    ResidueIsSuffix(all);
    TrimRetained(r, limit);
    if |buffer| > limit && |r| > |data| {
      LongResidue(buffer, data, r, limit);
    }
  }

  /** A residue that reaches back into an overlong buffer is cut down to the chunk. */
  lemma LongResidue(buffer: seq<byte>, data: seq<byte>, r: seq<byte>, limit: nat)
    requires Retained(buffer, limit) && |buffer| > limit
    requires |data| < |r| && IsSuffix(r, buffer + data)
    ensures |Trim(r, limit)| <= limit + |data|
  {
    var newest := FindLast(r, DOLLAR, |r|);
    var into := |r| - |data|;
    FindLastIsLast(r, DOLLAR, |r|);
    forall i | 0 < i < into ensures r[i] != DOLLAR {
      assert r[i] == buffer[|buffer| - into + i];
    }
  }

  /** The first rounds of the loop, one by one. */
  lemma NoDollar(sentences: seq<seq<byte>>, buffer: seq<byte>)
    requires Find(buffer, DOLLAR, 0) == |buffer|
    ensures Joined(sentences, Frame(buffer)) == Framed(sentences, buffer)
  {
  }

  lemma NoiseGone(buffer: seq<byte>)
    requires Find(buffer, DOLLAR, 0) < |buffer|
    ensures var rest := buffer[Find(buffer, DOLLAR, 0)..];
            rest != [] && rest[0] == DOLLAR && Frame(buffer) == Frame(rest)
  {
    hide Find, FrameSentence;
    FramedFromDollar(buffer[Find(buffer, DOLLAR, 0)..]);
  }

  lemma NoNewline(sentences: seq<seq<byte>>, rest: seq<byte>)
    requires rest != [] && rest[0] == DOLLAR && Find(rest, NEWLINE, 1) == |rest|
    ensures Joined(sentences, Frame(rest)) == Framed(sentences, rest)
  {
    hide Find;
    FramedFromDollar(rest);
  }

  lemma OneLine(sentences: seq<seq<byte>>, rest: seq<byte>)
    requires rest != [] && rest[0] == DOLLAR && Find(rest, NEWLINE, 1) < |rest|
    ensures var end := Find(rest, NEWLINE, 1);
            Joined(sentences, Frame(rest)) == Joined(sentences + Sentence(rest[..end + 1]), Frame(rest[end + 1..]))
  {
    hide Find, Sentence, Joined;
    FramedFromDollar(rest);
    var end := Find(rest, NEWLINE, 1);
    JoinedTwice(sentences, Sentence(rest[..end + 1]), Frame(rest[end + 1..]));
  }

  lemma TrimNone(limit: nat)
    ensures Trim([], limit) == []
  {
  }

  lemma FindAbsent(s: seq<byte>)
    requires Find(s, DOLLAR, 0) == |s|
    ensures FindLast(s, DOLLAR, |s|) == |s|
  {
    FindFirst(s, DOLLAR, 0);
  }

  lemma FindLastExists(s: seq<byte>)
    requires s != [] && s[0] == DOLLAR
    ensures FindLast(s, DOLLAR, |s|) < |s|
  {
    FindLastIsLast(s, DOLLAR, |s|);
  }

  /* ----- chunks ----- */

  /** After each chunk the residue is within the limit. */
  predicate StaysWithin(buffer: seq<byte>, chunks: seq<seq<byte>>, limit: nat)
    decreases |chunks|
  {
    chunks == [] ||
    (var f := Frame(buffer + chunks[0]); |f.residue| <= limit && StaysWithin(f.residue, chunks[1..], limit))
  }

  function FedAll(buffer: seq<byte>, chunks: seq<seq<byte>>, limit: nat): Framed
    decreases |chunks|
  {
    if chunks == [] then Framed([], buffer)
    else
      var f := Fed(buffer, chunks[0], limit);
      var g := FedAll(f.residue, chunks[1..], limit);
      Framed(f.sentences + g.sentences, g.residue)
  }

  /** While the residue stays within the limit, the chunks give what feeding them at once gives. */
  lemma {:induction false} ChunksDoNotMatter(buffer: seq<byte>, chunks: seq<seq<byte>>, limit: nat)
    requires chunks != [] && StaysWithin(buffer, chunks, limit)
    ensures FedAll(buffer, chunks, limit) == Fed(buffer, Concat(chunks), limit)
    decreases |chunks|
  {
    hide Frame;
    var f := Frame(buffer + chunks[0]);
    if |chunks| == 1 {
      assert chunks[1..] == [];
      assert Concat(chunks) == chunks[0];
      assert f.sentences + [] == f.sentences;
    } else {
      ChunksDoNotMatter(f.residue, chunks[1..], limit);
      FrameConcat(buffer + chunks[0], Concat(chunks[1..]));
      assert buffer + chunks[0] + Concat(chunks[1..]) == buffer + Concat(chunks);
    }
  }

  /* ----- the framer ----- */

  class NmeaLineBuffer {
    var buffer: seq<byte>
    const maxBufferSize: nat

    constructor (maxBufferSize: nat)
      requires maxBufferSize >= 128
      ensures buffer == [] && this.maxBufferSize == maxBufferSize
    {
      buffer := [];
      this.maxBufferSize := maxBufferSize;
    }

    /** Without a dollar the buffer is kept whole or not at all. */
    method DiscardNoise()
      requires Find(buffer, DOLLAR, 0) == |buffer|
      modifies this
      ensures buffer == Trim(old(buffer), maxBufferSize)
    {
      FindAbsent(buffer);
      if |buffer| > maxBufferSize {
        buffer := [];
      }
    }

    /** An overlong sentence is cut down to the newest start of one. */
    method KeepNewest()
      requires buffer != [] && buffer[0] == DOLLAR
      modifies this
      ensures buffer == Trim(old(buffer), maxBufferSize)
    {
      FindLastExists(buffer);
      if |buffer| > maxBufferSize {
        var newest := FindLast(buffer, DOLLAR, |buffer|);
        if newest > 0 {
          buffer := buffer[newest..];
        } else {
          buffer := [];
        }
      }
    }

    method Feed(data: seq<byte>) returns (sentences: seq<seq<byte>>)
      modifies this
      ensures var f := Fed(old(buffer), data, maxBufferSize); sentences == f.sentences && buffer == f.residue
      ensures old(Retained(buffer, maxBufferSize)) ==>
          Retained(buffer, maxBufferSize) && |buffer| <= maxBufferSize + |data|
    {
      hide Clean, Retained, Find, Joined, Trim, Frame, FrameSentence;
      if Retained(buffer, maxBufferSize) {
        RetainedBound(buffer, data, maxBufferSize);
      }
      buffer := buffer + data;
      ghost var all := buffer;
      sentences := [];
      JoinedNone(Frame(buffer));
      while buffer != []
        invariant Frame(all) == Joined(sentences, Frame(buffer))
        decreases |buffer|
      {
        var start := Find(buffer, DOLLAR, 0);
        if start == |buffer| {
          NoDollar(sentences, buffer);
          DiscardNoise();
          return;
        }
        NoiseGone(buffer);
        if start > 0 {
          buffer := buffer[start..];
        } else {
          assert buffer[0..] == buffer;
        }
        var end := Find(buffer, NEWLINE, 1);
        if end == |buffer| {
          NoNewline(sentences, buffer);
          KeepNewest();
          return;
        }
        OneLine(sentences, buffer);
        var line := Clean(buffer[..end + 1]);
        if line != [] && line[0] == DOLLAR {
          sentences := sentences + [line];
        } else {
          assert sentences + [] == sentences;
        }
        buffer := buffer[end + 1..];
      }
      NoDollar(sentences, buffer);
      TrimNone(maxBufferSize);
    }
  }
}
