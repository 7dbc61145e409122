/**
 * The reader of rapidjson as it runs: a cursor over a NUL-terminated buffer, a log of what the
 * handler was told, and an error field. Strings are decoded into the buffer itself (in-situ) or
 * into a separate character stack. Every method is proved against the functions of `JsonText`,
 * `JsonDescent` and `JsonAutomaton`, which speak of the text the buffer held at the start.
 */
module JsonReader {
  import opened Bytes
  import Utf8
  import opened JsonText
  import opened JsonDescent
  import opened JsonAutomaton

  /** What the handler receives: an event, or a string that lies in the buffer. */
  datatype Sent = Plain(event: Event) | InBuffer(isKey: bool, head: nat, length: nat)

  /** The event that was sent, read from buffer contents `b`, all of it below `limit`. */
  ghost predicate Denotes(sent: Sent, event: Event, b: seq<byte>, limit: nat) {
    match sent
    case Plain(e) => e == event
    case InBuffer(isKey, head, length) =>
      && head + length < limit <= |b|
      && b[head + length] == 0
      && event == if isKey then Key(b[head..head + length]) else String(b[head..head + length])
  }

  ghost predicate AllDenote(log: seq<Sent>, events: seq<Event>, b: seq<byte>, limit: nat) {
    |log| == |events| && forall k | 0 <= k < |log| :: Denotes(log[k], events[k], b, limit)
  }

  /** Strings already delivered survive writes behind them. */
  lemma DenoteFrame(log: seq<Sent>, events: seq<Event>, b: seq<byte>, b': seq<byte>, limit: nat, limit': nat)
    requires AllDenote(log, events, b, limit)
    requires limit <= |b| && limit <= limit' <= |b'| && b[..limit] == b'[..limit]
    ensures AllDenote(log, events, b', limit')
  {
    forall k | 0 <= k < |log| ensures Denotes(log[k], events[k], b', limit') {
      if log[k].InBuffer? {
        SliceStill(b, b', limit, log[k].head, log[k].length);
      }
    }
  }

  lemma SliceStill(b: seq<byte>, b': seq<byte>, limit: nat, head: nat, length: nat)
    requires head + length < limit <= |b| && limit <= |b'| && b[..limit] == b'[..limit]
    ensures b[head..head + length] == b'[head..head + length] && b[head + length] == b'[head + length]
  {
    assert b[head..head + length] == b[..limit][head..head + length];
    assert b'[head..head + length] == b'[..limit][head..head + length];
    assert b[head + length] == b[..limit][head + length];
    assert b'[head + length] == b'[..limit][head + length];
  }

  class Reader {
    const buffer: array<byte>
    const flags: Flags
    const insitu: bool
    ghost const text: seq<byte>
    var src: nat
    var dst: nat
    var chars: seq<byte>
    var log: seq<Sent>
    var error: Option<(ErrorCode, nat)>
    var stack: seq<nat>
    ghost var events: seq<Event>

    /** The unread part of the buffer is still the original text; all of it, unless strings are decoded in place. */
    ghost predicate Stream()
      reads this, buffer
    {
      && buffer.Length == |text| + 1
      && src <= |text|
      && forall k | (if insitu then src else 0) <= k <= |text| :: buffer[k] == Peek(text, k)
    }

    ghost predicate Valid()
      reads this, buffer
    {
      Stream() && AllDenote(log, events, buffer[..], src)
    }

    constructor (b: array<byte>, f: Flags, inPlace: bool)
      requires b.Length > 0 && b[b.Length - 1] == 0
      ensures Valid() && buffer == b && text == b[..b.Length - 1] && flags == f && insitu == inPlace
      ensures src == 0 && log == [] && events == [] && error == None && stack == []
    {
      buffer, flags, insitu, text := b, f, inPlace, b[..b.Length - 1];
      src, dst, chars, log, error, stack, events := 0, 0, [], [], None, [], [];
    }

    /** The outcome of reading one construct, reported in the fields. */
    ghost predicate Reports(before: seq<Event>, r: Parsed)
      reads this
    {
      && events == before + r.events
      && if r.Done? then error == None && src == r.next else error == Some((r.code, r.offset))
    }

    method SkipWhitespace()
      requires Valid()
      modifies this`src
      ensures Valid() && src == SkipSpace(text, old(src))
    {
      while buffer[src] == 0x20 || buffer[src] == 0x0A || buffer[src] == 0x0D || buffer[src] == 0x09
        invariant Stream() && old(src) <= src
        invariant SkipSpace(text, src) == SkipSpace(text, old(src))
        decreases |text| - src
      {
        src := src + 1;
      }
      DenoteFrame(log, events, buffer[..], buffer[..], old(src), src);
    }

    method Consume(wanted: byte) returns (ok: bool)
      requires Stream() && wanted != 0
      modifies this`src
      ensures Stream() && ok == (Peek(text, old(src)) == wanted)
      ensures src == if ok then old(src) + 1 else old(src)
    {
      ok := buffer[src] == wanted;
      if ok {
        src := src + 1;
      }
    }

    /* ----- strings ----- */

    /** What has been put so far: into the buffer from `head` on, or on the character stack. */
    ghost function Written(head: nat): seq<byte>
      reads this, buffer
    {
      if insitu then if head <= dst <= buffer.Length then buffer[head..dst] else [] else chars
    }

    /** Output goes to the right of `head` and never catches up with the input. */
    ghost predicate Output(head: nat)
      reads this, buffer
    {
      insitu ==> head <= dst <= src
    }

    method Put(c: byte, ghost head: nat)
      requires Stream() && Output(head) && (insitu ==> dst < src)
      modifies this`dst, this`chars, buffer
      ensures Stream() && Output(head) && Written(head) == old(Written(head)) + [c]
      ensures dst == if insitu then old(dst) + 1 else old(dst)
      ensures forall k | 0 <= k < buffer.Length && (insitu ==> k < head) :: buffer[k] == old(buffer[k])
    {
      if insitu {
        buffer[dst] := c;
        dst := dst + 1;
      } else {
        chars := chars + [c];
      }
    }

    method PutTwo(c: byte, c': byte, ghost head: nat)
      requires Stream() && Output(head) && (insitu ==> dst + 2 <= src)
      modifies this`dst, this`chars, buffer
      ensures Stream() && Output(head) && Written(head) == old(Written(head)) + [c, c']
      ensures dst == if insitu then old(dst) + 2 else old(dst)
      ensures forall k | 0 <= k < buffer.Length && (insitu ==> k < head) :: buffer[k] == old(buffer[k])
    {
      Put(c, head);
      Put(c', head);
    }

    /** Encodes a code point at the output, as many bytes as have certainly been consumed. */
    method PutCodepoint(cp: int, ghost head: nat)
      requires 0 <= cp <= 0x10FFFF
      requires Stream() && Output(head) && (insitu ==> dst + |Utf8.Encode(cp)| <= src)
      modifies this`dst, this`chars, buffer
      ensures Stream() && Output(head) && Written(head) == old(Written(head)) + Utf8.Encode(cp)
      ensures forall k | 0 <= k < buffer.Length && (insitu ==> k < head) :: buffer[k] == old(buffer[k])
    {
      if cp <= 0x7F {
        Put(cp, head);
      } else if cp <= 0x7FF {
        PutTwo(0xC0 + cp / 64, 0x80 + cp % 64, head);
      } else if cp <= 0xFFFF {
        Put(0xE0 + cp / 4096, head);
        PutTwo(0x80 + cp / 64 % 64, 0x80 + cp % 64, head);
      } else {
        PutTwo(0xF0 + cp / 262144, 0x80 + cp / 4096 % 64, head);
        PutTwo(0x80 + cp / 64 % 64, 0x80 + cp % 64, head);
      }
    }

    /** Four hexadecimal digits. */
    method ParseHex4(escapeOffset: nat) returns (codepoint: nat)
      requires Stream() && error == None
      modifies this`src, this`error
      ensures Stream() && src >= old(src)
      ensures var r := Hex(text, old(src), 4, 0);
              if r.Some? then error == None && src == old(src) + 4 && codepoint == r.value
              else error == Some((StringUnicodeEscapeInvalidHex, escapeOffset))
    {
      hide Hex;
      codepoint := 0;
      for i := 0 to 4
        invariant Stream() && error == None && src == old(src) + i
        invariant Hex(text, src, 4 - i, codepoint) == Hex(text, old(src), 4, 0)
      {
        var c := buffer[src];
        HexStep(text, src, 4 - i, codepoint);
        codepoint := codepoint * 16 + c;
        if ZERO <= c <= NINE {
          codepoint := codepoint - ZERO;
        } else if CAPITAL_A <= c <= CAPITAL_F {
          codepoint := codepoint - (CAPITAL_A - 10);
        } else if LETTER_A <= c <= LETTER_F {
          codepoint := codepoint - (LETTER_A - 10);
        } else {
          error := Some((StringUnicodeEscapeInvalidHex, escapeOffset));
          return;
        }
        src := src + 1;
      }
      HexDone(text, src, codepoint);
    }

    /** The rest of a `\\u` escape, with its second half when the first is a high surrogate. */
    method ParseCodepoint(escapeOffset: nat) returns (codepoint: nat)
      requires Stream() && error == None && escapeOffset < |text| && src == escapeOffset + 2
      modifies this`src, this`error
      ensures Stream() && src >= old(src)
      ensures var r := ScanCodepoint(text, escapeOffset);
              if r.Bad? then error == Some((r.code, r.offset))
              else error == None && src == r.next && codepoint == r.value
    {
      hide Hex;
      codepoint := ParseHex4(escapeOffset);
      if error == None && 0xD800 <= codepoint <= 0xDBFF {
        var slash := Consume(BACKSLASH);
        if slash {
          slash := Consume(LETTER_U);
        }
        if !slash {
          error := Some((StringUnicodeSurrogateInvalid, escapeOffset));
          return;
        }
        var codepoint2 := ParseHex4(escapeOffset);
        if error != None { return; }
        if codepoint2 < 0xDC00 || codepoint2 > 0xDFFF {
          error := Some((StringUnicodeSurrogateInvalid, escapeOffset));
          return;
        }
        codepoint := (codepoint - 0xD800) * 1024 + (codepoint2 - 0xDC00) + 0x10000;
      }
    }

    /** The escape at the cursor, decoded to the output. */
    method ParseEscape(ghost head: nat)
      requires Stream() && Output(head) && error == None && Peek(text, src) == BACKSLASH
      modifies this`src, this`dst, this`chars, this`error, buffer
      ensures Stream() && Output(head) && src >= old(src)
      ensures forall k | 0 <= k < buffer.Length && (insitu ==> k < head) :: buffer[k] == old(buffer[k])
      ensures var r := ScanEscape(text, old(src));
              if r.Bad? then error == Some((r.code, r.offset))
              else error == None && src == r.next && Written(head) == old(Written(head)) + r.value
    {
      hide ScanCodepoint;
      var escapeOffset := src;
      src := src + 1;
      var e := buffer[src];
      if Unescaped(e) != 0 {
        src := src + 1;
        Put(Unescaped(e), head);
      } else if e == LETTER_U {
        src := src + 1;
        var codepoint := ParseCodepoint(escapeOffset);
        if error != None { return; }
        PutCodepoint(codepoint, head);
      } else {
        error := Some((StringEscapeInvalid, escapeOffset));
      }
    }

    /** The body of a string up to and past its closing quote, with a NUL after the decoded bytes. */
    method ParseStringToStream(ghost head: nat)
      requires Stream() && error == None
      requires if insitu then dst == head == src else chars == []
      modifies this`src, this`dst, this`chars, this`error, buffer
      ensures Stream() && Output(head) && src >= old(src)
      ensures forall k | 0 <= k < buffer.Length && (insitu ==> k < head) :: buffer[k] == old(buffer[k])
      ensures var r := ScanString(text, old(src));
              if r.Bad? then error == Some((r.code, r.offset))
              else error == None && src == r.next && Written(head) == r.value + [0]
    {
      hide ScanEscape;
      ghost var i := src;
      PrependNone(Written(head), ScanString(text, i));
      while true
        invariant Stream() && Output(head) && error == None && i <= src
        invariant forall k | 0 <= k < buffer.Length && (insitu ==> k < head) :: buffer[k] == old(buffer[k])
        invariant ScanString(text, i) == PrependBytes(Written(head), ScanString(text, src))
        decreases |text| - src
      {
        var c := buffer[src];
        ghost var before := Written(head);
        ghost var at := src;
        if c == BACKSLASH {
          ParseEscape(head);
          if error != None { return; }
          PrependTwice(before, ScanEscape(text, at).value, ScanString(text, src));
        } else if c == QUOTE {
          src := src + 1;
          Put(0, head);
          return;
        } else if c < 0x20 {
          error := Some((if c == 0 then StringMissQuotationMark else StringInvalidEncoding, src));
          return;
        } else {
          src := src + 1;
          Put(c, head);
          PrependTwice(before, [c], ScanString(text, src));
        }
      }
    }

    /** A string or a member name, reported to the handler. */
    method ParseString(isKey: bool)
      requires Valid() && error == None && Peek(text, src) == QUOTE
      modifies this`src, this`dst, this`chars, this`error, this`log, this`events, buffer
      ensures Valid() && src > old(src)
      ensures var r := ScanString(text, old(src) + 1);
              if r.Bad? then error == Some((r.code, r.offset)) && events == old(events)
              else
                && error == None && src == r.next
                && events == old(events) + [if isKey then Key(r.value) else String(r.value)]
    {
      hide ScanString, Denotes;
      src := src + 1;
      ghost var b, start := buffer[..], src;
      var head := src;
      dst, chars := src, [];
      ParseStringToStream(head);
      assert b[..start] == buffer[..][..start];
      DenoteFrame(log, events, b, buffer[..], start - 1, src);
      if error != None { return; }
      assert Written(head)[..|Written(head)| - 1] == ScanString(text, start).value;
      if insitu {
        assert buffer[head..dst - 1] == buffer[head..dst][..dst - head - 1];
        AddInBuffer(log, events, buffer[..], src, isKey, head, dst - 1 - head);
        events := events + [if isKey then Key(buffer[head..dst - 1]) else String(buffer[head..dst - 1])];
        log := log + [InBuffer(isKey, head, dst - 1 - head)];
      } else {
        var s := chars[..|chars| - 1];
        var event := if isKey then Key(s) else String(s);
        Emit(event);
      }
    }

    /** Calls the handler, which accepts. */
    method Emit(event: Event)
      requires Valid()
      modifies this`log, this`events
      ensures Valid() && events == old(events) + [event]
    {
      log := log + [Plain(event)];
      events := events + [event];
    }

    /* ----- numbers ----- */

    /**
     * The accumulation loop that the source writes four times, for each sign in 32 and in 64 bits:
     * it stops in front of the digit that would push the number past `limit * 10 + last`. The
     * accumulator wraps at `modulus` as the machine's does, and never gets there.
     */
    method Accumulate(ghost a: nat, ghost b: nat, start: nat, digits: nat, limit: nat, last: nat, modulus: nat)
      returns (acc: nat, full: bool, significandDigit: nat)
      requires Stream() && a < src <= b == DigitsEnd(text, src) && AllDigits(a, b)
      requires last <= 9 && limit * 10 + last < modulus
      requires start == Decimal(text, a, src) <= limit * 10 + last && digits == src - a - 1
      modifies this`src
      ensures Stream() && a < src <= b == DigitsEnd(text, src) && significandDigit == src - a - 1
      ensures acc == Decimal(text, a, src) <= limit * 10 + last
      ensures full ==> acc >= limit
      ensures if full then src < b && Decimal(text, a, src + 1) > limit * 10 + last else src == b
    {
      acc, full, significandDigit := start, false, digits;
      while IsDigit(buffer[src])
        invariant Stream() && a < src <= b == DigitsEnd(text, src) && significandDigit == src - a - 1
        invariant acc == Decimal(text, a, src) <= limit * 10 + last
        decreases b - src
      {
        if acc >= limit && (acc != limit || buffer[src] - ZERO > last) {
          full := true;
          return;
        }
        ghost var exact := acc * 10 + (buffer[src] - ZERO);
        acc := (acc * 10 + (buffer[src] - ZERO)) % modulus;
        SmallMod(exact, modulus);
        src := src + 1;
        significandDigit := significandDigit + 1;
      }
    }

    ghost predicate AllDigits(a: nat, b: nat) {
      forall k | a <= k < b :: IsDigit(Peek(text, k))
    }

    /** Digits beyond 64 bits go on as the significand of a double. */
    method AccumulateDouble(ghost a: nat, ghost b: nat, start: nat) returns (d: nat)
      requires Stream() && a < src <= b == DigitsEnd(text, src) && AllDigits(a, b) && start == Decimal(text, a, src)
      modifies this`src
      ensures Stream() && src == b && d == Decimal(text, a, b)
    {
      d := start;
      while IsDigit(buffer[src])
        invariant Stream() && a < src <= b == DigitsEnd(text, src) && d == Decimal(text, a, src)
        decreases b - src
      {
        d := d * 10 + (buffer[src] - ZERO);
        src := src + 1;
      }
    }

    /** The integer part, accumulated in 32 bits, then in 64 bits, then as a double's significand. */
    method ParseInteger(minus: bool) returns (n: nat, use64bit: bool, useDouble: bool, significandDigit: nat)
      requires Stream() && IsDigit(Peek(text, src))
      modifies this`src
      ensures Stream() && src > old(src) && AllDigits(old(src), src)
      ensures src == if Peek(text, old(src)) == ZERO then old(src) + 1 else DigitsEnd(text, old(src))
      ensures n == Decimal(text, old(src), src)
      ensures use64bit <==> n > if minus then 0x8000_0000 else 0xFFFF_FFFF
      ensures useDouble <==> IntegerEvent(minus, n) == None
      ensures if useDouble then significandDigit >= 17 else significandDigit == src - old(src) - 1
    {
      hide Decimal;
      ghost var a := src;
      ghost var b := DigitsEnd(text, a);
      n, use64bit, useDouble, significandDigit := buffer[src] - ZERO, false, false, 0;
      src := src + 1;
      OneDigit(text, a);
      if buffer[src - 1] == ZERO {
        return;
      }
      n, use64bit, significandDigit := Accumulate(a, b, n, 0, if minus then 214748364 else 429496729,
                                                  if minus then 8 else 5, 0x1_0000_0000);
      if use64bit {
        DecimalMonotone(text, a, src + 1, b);
        n, useDouble, significandDigit := ParseInteger64(minus, a, b, n, significandDigit);
      }
    }

    /** Going on in 64 bits, and beyond them. */
    method ParseInteger64(minus: bool, ghost a: nat, ghost b: nat, start: nat, digits: nat)
      returns (n: nat, useDouble: bool, significandDigit: nat)
      requires Stream() && a < src <= b == DigitsEnd(text, src) && AllDigits(a, b)
      requires start == Decimal(text, a, src) < 0x1_0000_0000 && digits == src - a - 1
      requires Decimal(text, a, b) > if minus then 0x8000_0000 else 0xFFFF_FFFF
      modifies this`src
      ensures Stream() && src == b && n == Decimal(text, a, b)
      ensures useDouble <==> IntegerEvent(minus, n) == None
      ensures if useDouble then significandDigit >= 17 else significandDigit == b - a - 1
    {
      hide Decimal;
      n, useDouble, significandDigit := Accumulate(a, b, start, digits,
                                                   if minus then 0x0CCC_CCCC_CCCC_CCCC else 0x1999_9999_9999_9999,
                                                   if minus then 8 else 5, UINT64_LIMIT);
      if useDouble {
        DecimalMonotone(text, a, src + 1, b);
        LongDecimal(text, a, src);
        n := AccumulateDouble(a, b, n);
      }
    }

    /**
     * The fraction, if there is a point. While the significand is at most 2^53 - 1 it is kept in 64
     * bits; then digits go to the double until 17 significant ones are seen. A double is positive
     * here exactly when the significand is.
     */
    method ParseFraction(minus: bool, n: nat, big: bool, digits: nat) returns (d: nat, expFrac: int, useDouble: bool)
      requires Stream() && error == None
      requires big <==> IntegerEvent(minus, n) == None
      requires big ==> digits >= 17
      modifies this`src, this`error
      ensures Stream() && src >= old(src) && expFrac <= 0
      ensures var r := ScanFraction(text, old(src), minus, n, digits + 1);
              if r.Bad? then error == Some((r.code, r.offset))
              else
                && error == None && src == r.next && useDouble == (big || r.value.Some?)
                && Fraction(d, -expFrac) == if r.value.Some? then r.value.value else Fraction(n, 0)
    {
      d, expFrac, useDouble := n, 0, big;
      if buffer[src] != DOT { return; }
      src := src + 1;
      if !IsDigit(buffer[src]) {
        error := Some((NumberMissFraction, src));
        return;
      }
      var significandDigit := digits;
      if !useDouble {
        d, expFrac, significandDigit := FastFraction(n, digits);
        useDouble := true;
      }
      d, expFrac := SlowFraction(d, expFrac, significandDigit, big);
    }

    method FastFraction(n: nat, digits: nat) returns (i64: nat, expFrac: int, significandDigit: nat)
      requires Stream() && n < UINT64_LIMIT
      modifies this`src
      ensures Stream() && src >= old(src) && DigitsEnd(text, src) == DigitsEnd(text, old(src)) && expFrac <= 0
      ensures i64 > FAST_LIMIT || !IsDigit(Peek(text, src))
      ensures KeepFraction(text, src, i64, significandDigit, -expFrac) == KeepFraction(text, old(src), n, digits, 0)
    {
      i64, expFrac, significandDigit := n, 0, digits;
      while IsDigit(buffer[src])
        invariant Stream() && src >= old(src) && DigitsEnd(text, src) == DigitsEnd(text, old(src))
        invariant expFrac <= 0 && i64 < UINT64_LIMIT
        invariant KeepFraction(text, src, i64, significandDigit, -expFrac) == KeepFraction(text, old(src), n, digits, 0)
        decreases |text| - src
      {
        if i64 > FAST_LIMIT { break; }
        i64 := (i64 * 10 + (buffer[src] - ZERO)) % UINT64_LIMIT;
        src := src + 1;
        expFrac := expFrac - 1;
        if i64 != 0 {
          significandDigit := significandDigit + 1;
        }
      }
    }

    method SlowFraction(m: nat, kept: int, digits: nat, big: bool) returns (d: nat, expFrac: int)
      requires Stream() && kept <= 0
      requires if big then digits >= 17 else m > FAST_LIMIT || !IsDigit(Peek(text, src))
      modifies this`src
      ensures Stream() && src == DigitsEnd(text, old(src)) && expFrac <= 0
      ensures Fraction(d, -expFrac) == if big then Fraction(m, -kept)
          else KeepFraction(text, old(src), m, digits, -kept)
    {
      ghost var target := if big then Fraction(m, -kept) else KeepFraction(text, src, m, digits, -kept);
      var significandDigit := digits;
      d, expFrac := m, kept;
      while IsDigit(buffer[src])
        invariant Stream() && src >= old(src) && DigitsEnd(text, src) == DigitsEnd(text, old(src)) && expFrac <= 0
        invariant if big then significandDigit >= 17 else d > FAST_LIMIT || !IsDigit(Peek(text, src))
        invariant if significandDigit >= 17 then Fraction(d, -expFrac) == target
                  else KeepFraction(text, src, d, significandDigit, -expFrac) == target
        decreases |text| - src
      {
        if significandDigit < 17 {
          d := d * 10 + (buffer[src] - ZERO);
          expFrac := expFrac - 1;
          if d > 0 {
            significandDigit := significandDigit + 1;
          }
        }
        src := src + 1;
      }
    }

    /** The exponent, if there is one; positive ones past the range of doubles are errors at once. */
    method ParseExponent(expFrac: int, startOffset: nat) returns (exp: int, found: bool)
      requires Stream() && error == None && expFrac <= 0
      modifies this`src, this`error
      ensures Stream() && src >= old(src)
      ensures var r := ScanExponent(text, old(src), -expFrac, startOffset);
              if r.Bad? then error == Some((r.code, r.offset))
              else
                && error == None && src == r.next && found == r.value.Some?
                && exp == if found then r.value.value else 0
    {
      hide ExponentUp, ExponentDown;
      exp, found := 0, buffer[src] == LETTER_E || buffer[src] == CAPITAL_E;
      if !found { return; }
      var expMinus := false;
      src := src + 1;
      if buffer[src] == PLUS {
        src := src + 1;
      } else if buffer[src] == MINUS {
        src := src + 1;
        expMinus := true;
      }
      if !IsDigit(buffer[src]) {
        error := Some((NumberMissExponent, src));
        return;
      }
      exp := buffer[src] - ZERO;
      src := src + 1;
      if expMinus {
        exp := NegativeExponent(exp, (expFrac + 2147483639) / 10);
        exp := -exp;
      } else {
        exp := PositiveExponent(exp, 308 - expFrac, startOffset);
      }
    }

    method NegativeExponent(start: nat, maxExp: int) returns (exp: nat)
      requires Stream()
      modifies this`src
      ensures Stream() && src == DigitsEnd(text, old(src)) && exp == ExponentDown(text, old(src), start, maxExp)
    {
      exp := start;
      while IsDigit(buffer[src])
        invariant Stream() && src >= old(src) && DigitsEnd(text, src) == DigitsEnd(text, old(src))
        invariant ExponentDown(text, src, exp, maxExp) == ExponentDown(text, old(src), start, maxExp)
        decreases |text| - src
      {
        exp := exp * 10 + (buffer[src] - ZERO);
        src := src + 1;
        if exp > maxExp {
          while IsDigit(buffer[src])
            invariant Stream() && src > old(src) && DigitsEnd(text, src) == DigitsEnd(text, old(src))
            decreases |text| - src
          {
            src := src + 1;
          }
        }
      }
    }

    method PositiveExponent(start: nat, maxExp: int, startOffset: nat) returns (exp: nat)
      requires Stream() && error == None
      modifies this`src, this`error
      ensures Stream() && src >= old(src)
      ensures var r := ExponentUp(text, old(src), start, maxExp);
              if r.None? then error == Some((NumberTooBig, startOffset))
              else error == None && src == DigitsEnd(text, old(src)) && exp == r.value
    {
      exp := start;
      while IsDigit(buffer[src])
        invariant Stream() && error == None && src >= old(src) && DigitsEnd(text, src) == DigitsEnd(text, old(src))
        invariant ExponentUp(text, src, exp, maxExp) == ExponentUp(text, old(src), start, maxExp)
        decreases |text| - src
      {
        exp := exp * 10 + (buffer[src] - ZERO);
        src := src + 1;
        if exp > maxExp {
          error := Some((NumberTooBig, startOffset));
          return;
        }
      }
    }

    /** A number, delivered in the narrowest type. */
    method ParseNumber()
      requires Valid() && error == None
      modifies this`src, this`error, this`log, this`events
      ensures Valid() && src >= old(src)
      ensures Reports(old(events), FromLexed(ScanNumber(text, old(src), flags)))
    {
      hide Denotes, AllDenote, Decimal, DigitsEnd, ScanRest, IntegerEvent, Untouched;
      assert events + [] == events;
      var startOffset := src;
      Unread();
      var minus := Consume(MINUS);
      if !IsDigit(buffer[src]) {
        error := Some((ValueInvalid, src));
        Behind(startOffset);
        return;
      }
      ghost var a := src;
      var n, use64bit, useDouble, significandDigit := ParseInteger(minus);
      Behind(startOffset);
      ParseRest(startOffset, minus, n, use64bit, useDouble, significandDigit, src - a);
    }

    /** The fraction and the exponent, and the event. */
    method ParseRest(startOffset: nat, minus: bool, n: nat, use64bit: bool, useDouble: bool, significandDigit: nat,
                     ghost digits: nat)
      requires Valid() && error == None && startOffset < src && Untouched(startOffset) && digits > 0
      requires use64bit <==> n > if minus then 0x8000_0000 else 0xFFFF_FFFF
      requires useDouble <==> IntegerEvent(minus, n) == None
      requires if useDouble then significandDigit >= 17 else significandDigit == digits - 1
      modifies this`src, this`error, this`log, this`events
      ensures Valid() && src >= old(src)
      ensures Reports(old(events), FromLexed(ScanRest(text, startOffset, minus, n, digits, old(src), flags)))
    {
      hide Denotes, AllDenote, ScanFraction, ScanExponent, Deliver, IntegerEvent, Untouched;
      assert events + [] == events;
      ghost var b := src;
      if useDouble {
        FractionOfBig(text, src, minus, n, significandDigit + 1, digits);
      }
      ghost var fraction := ScanFraction(text, src, minus, n, digits);
      var d, expFrac, fractional := ParseFraction(minus, n, useDouble, significandDigit);
      if error != None {
        Behind(b);
        return;
      }
      ghost var exponent := ScanExponent(text, src, -expFrac, startOffset);
      var exp, found := ParseExponent(expFrac, startOffset);
      Behind(b);
      if error == None {
        ReadSince(startOffset);
        DeliverNumber(startOffset, minus, n, use64bit, fractional || found, d, exp + expFrac,
                      fraction.value, exponent.value);
      }
    }

    /** Calls the event for the type of the number. */
    method DeliverNumber(startOffset: nat, minus: bool, n: nat, use64bit: bool, useDouble: bool, d: nat, p: int,
                         ghost fraction: Option<Fraction>, ghost exponent: Option<int>)
      requires Valid() && error == None
      requires startOffset <= src && buffer[startOffset..src] == text[startOffset..src]
      requires use64bit <==> n > if minus then 0x8000_0000 else 0xFFFF_FFFF
      requires useDouble <==> IntegerEvent(minus, n) == None || fraction.Some? || exponent.Some?
      requires d == if fraction.Some? then fraction.value.significand else n
      requires p == (if exponent.Some? then exponent.value else 0) - if fraction.Some? then fraction.value.kept else 0
      modifies this`error, this`log, this`events
      ensures Valid() && Reports(old(events), FromLexed(Deliver(text, startOffset, minus, n, fraction, exponent,
                                                                src, flags)))
    {
      hide Denotes;
      assert events + [] == events;
      if useDouble {
        if flags.overflows(buffer[startOffset..src]) {
          error := Some((NumberTooBig, startOffset));
        } else {
          Emit(Double(minus, d, p));
        }
      } else {
        Emit(NarrowestInteger(minus, n, use64bit));
      }
    }

    /** The typed event, negated in two's complement when there was a minus. */
    function NarrowestInteger(minus: bool, n: nat, use64bit: bool): (r: Event)
      requires IntegerEvent(minus, n).Some?
      requires use64bit <==> n > if minus then 0x8000_0000 else 0xFFFF_FFFF
      ensures r == IntegerEvent(minus, n).value
    {
      if use64bit then
        if minus then Int64(ToInt64((UINT64_LIMIT - n) % UINT64_LIMIT)) else Uint64(n)
      else
        if minus then Int(ToInt32((0x1_0000_0000 - n) % 0x1_0000_0000)) else Uint(n)
    }

    /** What is ahead of the cursor is the text. */
    ghost predicate Untouched(start: nat)
      reads buffer
    {
      start <= |text| <= buffer.Length && buffer[start..|text|] == text[start..]
    }

    lemma Unread()
      requires Stream()
      ensures Untouched(src)
    {
    }

    /** And so is what was read since, if the buffer has not changed. */
    lemma ReadSince(start: nat)
      requires Stream() && start <= src && Untouched(start)
      ensures buffer[start..src] == text[start..src]
    {
      assert buffer[start..src] == buffer[start..|text|][..src - start];
      assert text[start..src] == text[start..][..src - start];
    }

    /** Moving the cursor forward keeps what has been delivered. */
    lemma Behind(limit: nat)
      requires Stream() && limit <= src && AllDenote(log, events, buffer[..], limit)
      ensures Valid()
    {
      DenoteFrame(log, events, buffer[..], buffer[..], limit, src);
    }

    /* ----- values ----- */

    /** The rest of null, true or false, as far as it matches. */
    method ParseLiteral(rest: seq<byte>, event: Event)
      requires Valid() && error == None && src < |text| && 0 !in rest
      modifies this`src, this`error, this`log, this`events
      ensures Valid() && src > old(src)
      ensures Reports(old(events), FromLexed(ScanLiteral(text, old(src), rest, event)))
    {
      hide Denotes;
      assert events + [] == events;
      var start := src;
      src := src + 1;
      var matching, k := true, 0;
      while matching && k < |rest|
        invariant Stream() && k <= |rest| && src == start + 1 + k
        invariant matching || k < |rest|
        invariant error == None && log == old(log) && events == old(events)
        invariant Match(text, start + 1, rest) == if matching then Match(text, src, rest[k..]) else src
        decreases |rest| - k, matching
      {
        matching := Consume(rest[k]);
        if matching {
          k := k + 1;
        }
      }
      Behind(start);
      if matching {
        Emit(event);
      } else {
        error := Some((ValueInvalid, src));
      }
    }

    /** Any value. */
    method ParseValue()
      requires Valid() && error == None
      modifies this`src, this`dst, this`chars, this`error, this`log, this`events, buffer
      ensures Valid() && src >= old(src) && Reports(old(events), JsonDescent.ParseValue(text, old(src), flags))
      decreases |text| - src, 1
    {
      hide Denotes, ScanString, ScanNumber, ScanLiteral, JsonDescent.ParseMembers, JsonDescent.ParseElements;
      var c := buffer[src];
      if c == LETTER_N {
        ParseLiteral(NULL_REST, Null);
      } else if c == LETTER_T {
        ParseLiteral(TRUE_REST, Bool(true));
      } else if c == LETTER_F {
        ParseLiteral(FALSE_REST, Bool(false));
      } else if c == QUOTE {
        ParseString(false);
        assert old(events) + [] == old(events);
      } else if c == LEFT_CURLY {
        ParseObject();
      } else if c == LEFT_BRACKET {
        ParseArray();
      } else {
        ParseNumber();
      }
    }

    method ParseArray()
      requires Valid() && error == None && Peek(text, src) == LEFT_BRACKET
      modifies this`src, this`dst, this`chars, this`error, this`log, this`events, buffer
      ensures Valid() && src >= old(src) && Reports(old(events), JsonDescent.ParseValue(text, old(src), flags))
      decreases |text| - src, 0
    {
      hide Denotes, JsonDescent.ParseMembers, JsonDescent.ParseElements;
      ghost var start := src;
      src := src + 1;
      Behind(start);
      Emit(StartArray);
      SkipWhitespace();
      var closed := Consume(RIGHT_BRACKET);
      if closed {
        Behind(src - 1);
        Emit(EndArray(0));
        return;
      }
      ParseElements(start);
    }

    /** What comes after an element: the next one, or the end of the container. */
    method MoreElements(count: nat) returns (more: bool)
      requires Valid() && error == None && !IsSpace(Peek(text, src))
      modifies this`src, this`error, this`log, this`events
      ensures Valid() && src >= old(src)
      ensures var r := JsonDescent.MoreElements(text, old(src), flags, count);
              if more then
                && error == None && events == old(events) && src > old(src)
                && r == JsonDescent.ParseElements(text, src, flags, count)
              else Reports(old(events), r)
    {
      hide Denotes, JsonDescent.ParseElements;
      ghost var start := src;
      assert events + [] == events;
      more := Consume(COMMA);
      Behind(start);
      if more {
        SkipWhitespace();
        if flags.trailingCommas && buffer[src] == RIGHT_BRACKET {
          Emit(EndArray(count));
          src := src + 1;
          Behind(src - 1);
          more := false;
        }
      } else {
        var closed := Consume(RIGHT_BRACKET);
        Behind(start);
        if closed {
          Emit(EndArray(count));
        } else {
          error := Some((ArrayMissCommaOrSquareBracket, src));
        }
      }
    }

    /** The loop over the items of a container. */
    method ParseElements(ghost start: nat)
      requires Valid() && error == None && start < src
      modifies this`src, this`dst, this`chars, this`error, this`log, this`events, buffer
      ensures Valid() && src >= old(src) && Reports(old(events), JsonDescent.ParseElements(text, old(src), flags, 0))
      decreases |text| - start, 0, 1
    {
      hide Denotes, JsonDescent.ParseElements, JsonDescent.ParseValue, JsonDescent.MoreElements;
      var count := 0;
      ghost var whole := JsonDescent.ParseElements(text, src, flags, 0);
      ghost var sofar: seq<Event> := [];
      PrependEmpty(whole);
      while true
        invariant Valid() && error == None && start < src && old(src) <= src
        invariant events == old(events) + sofar
        invariant whole == Prepend(sofar, JsonDescent.ParseElements(text, src, flags, count))
        decreases |text| - src
      {
        ghost var item := JsonDescent.ParseValue(text, src, flags);
        ElementsStep(text, src, flags, count, sofar);
        ParseElement(start);
        sofar := sofar + item.events;
        if error != None {
          Reported(old(events), sofar, Failed([], item.code, item.offset));
          return;
        }
        count := count + 1;
        ghost var rest := JsonDescent.MoreElements(text, src, flags, count);
        var more := MoreElements(count);
        if !more {
          Reported(old(events), sofar, rest);
          return;
        }
      }
    }

    /** An element and the whitespace after it. */
    method ParseElement(ghost start: nat)
      requires Valid() && error == None && start < src
      modifies this`src, this`dst, this`chars, this`error, this`log, this`events, buffer
      ensures Valid() && src >= old(src)
      ensures var r := JsonDescent.ParseValue(text, old(src), flags);
              && events == old(events) + r.events
              && if r.Done? then error == None && src == SkipSpace(text, r.next) else error == Some((r.code, r.offset))
      decreases |text| - start, 0, 0
    {
      hide Denotes, JsonDescent.ParseValue;
      ParseValue();
      if error == None {
        SkipWhitespace();
      }
    }

    method ParseObject()
      requires Valid() && error == None && Peek(text, src) == LEFT_CURLY
      modifies this`src, this`dst, this`chars, this`error, this`log, this`events, buffer
      ensures Valid() && src >= old(src) && Reports(old(events), JsonDescent.ParseValue(text, old(src), flags))
      decreases |text| - src, 0
    {
      hide Denotes, JsonDescent.ParseMembers, JsonDescent.ParseElements;
      ghost var start := src;
      src := src + 1;
      Behind(start);
      Emit(StartObject);
      SkipWhitespace();
      var closed := Consume(RIGHT_CURLY);
      if closed {
        Behind(src - 1);
        Emit(EndObject(0));
        return;
      }
      ParseMembers(start);
    }

    /** A member and the whitespace after it. */
    method ParseMember(ghost start: nat)
      requires Valid() && error == None && start < src
      modifies this`src, this`dst, this`chars, this`error, this`log, this`events, buffer
      ensures Valid() && src >= old(src)
      ensures Reports(old(events), JsonDescent.ParseMember(text, old(src), flags))
      decreases |text| - start, 0, 0
    {
      hide Denotes, ScanString, SkipSpace, JsonDescent.ParseValue;
      assert events + [] == events;
      if buffer[src] != QUOTE {
        error := Some((ObjectMissName, src));
        return;
      }
      ParseString(true);
      if error != None { return; }
      SkipWhitespace();
      var colon := Consume(COLON);
      if !colon {
        error := Some((ObjectMissColon, src));
        return;
      }
      Behind(src - 1);
      SkipWhitespace();
      ghost var before := events;
      ParseValue();
      assert old(events) + [before[|before| - 1]] == before;
      if error != None { return; }
      SkipWhitespace();
    }

    /** What comes after a member: the next one, or the end of the container. */
    method MoreMembers(count: nat) returns (more: bool)
      requires Valid() && error == None && !IsSpace(Peek(text, src))
      modifies this`src, this`error, this`log, this`events
      ensures Valid() && src >= old(src)
      ensures var r := JsonDescent.MoreMembers(text, old(src), flags, count);
              if more then
                && error == None && events == old(events) && src > old(src)
                && r == JsonDescent.ParseMembers(text, src, flags, count)
              else Reports(old(events), r)
    {
      hide Denotes, JsonDescent.ParseMembers;
      ghost var start := src;
      assert events + [] == events;
      more := Consume(COMMA);
      Behind(start);
      if more {
        SkipWhitespace();
        if flags.trailingCommas && buffer[src] == RIGHT_CURLY {
          Emit(EndObject(count));
          src := src + 1;
          Behind(src - 1);
          more := false;
        }
      } else {
        var closed := Consume(RIGHT_CURLY);
        Behind(start);
        if closed {
          Emit(EndObject(count));
        } else {
          error := Some((ObjectMissCommaOrCurlyBracket, src));
        }
      }
    }

    /** The loop over the items of a container. */
    method ParseMembers(ghost start: nat)
      requires Valid() && error == None && start < src
      modifies this`src, this`dst, this`chars, this`error, this`log, this`events, buffer
      ensures Valid() && src >= old(src) && Reports(old(events), JsonDescent.ParseMembers(text, old(src), flags, 0))
      decreases |text| - start, 0, 1
    {
      hide Denotes, JsonDescent.ParseMembers, JsonDescent.ParseMember, JsonDescent.MoreMembers;
      var count := 0;
      ghost var whole := JsonDescent.ParseMembers(text, src, flags, 0);
      ghost var sofar: seq<Event> := [];
      PrependEmpty(whole);
      while true
        invariant Valid() && error == None && start < src && old(src) <= src
        invariant events == old(events) + sofar
        invariant whole == Prepend(sofar, JsonDescent.ParseMembers(text, src, flags, count))
        decreases |text| - src
      {
        ghost var item := JsonDescent.ParseMember(text, src, flags);
        MembersStep(text, src, flags, count, sofar);
        ParseMember(start);
        sofar := sofar + item.events;
        if error != None {
          Reported(old(events), sofar, Failed([], item.code, item.offset));
          return;
        }
        count := count + 1;
        ghost var rest := JsonDescent.MoreMembers(text, src, flags, count);
        var more := MoreMembers(count);
        if !more {
          Reported(old(events), sofar, rest);
          return;
        }
      }
    }

    /* ----- documents ----- */

    /** The reader has finished with outcome `r`. */
    ghost predicate Concludes(r: Outcome)
      reads this
    {
      && events == r.events
      && if r.Accepted? then error == None && src == r.end else error == Some((r.code, r.offset))
    }

    /** The recursive parser. */
    method Parse()
      requires Valid() && src == 0 && events == [] && error == None
      modifies this`src, this`dst, this`chars, this`error, this`log, this`events, buffer
      ensures Valid() && Concludes(JsonDescent.Parse(text, flags))
    {
      hide Denotes, JsonDescent.ParseValue;
      SkipWhitespace();
      if buffer[src] == 0 {
        error := Some((DocumentEmpty, src));
        return;
      }
      ghost var root := JsonDescent.ParseValue(text, src, flags);
      ParseValue();
      assert [] + root.events == root.events;
      if error == None && !flags.stopWhenDone {
        SkipWhitespace();
        if buffer[src] != 0 {
          error := Some((DocumentRootNotSingular, src));
        }
      }
    }

    /** The iterative parser's view of the reader. */
    ghost function Now(q: State): Machine
      reads this
    {
      Machine(src, q, stack, events)
    }

    /** Reports the error that a state stands for, unless one has been reported. */
    method HandleError(q: State)
      requires Stream()
      modifies this`error
      ensures error == if old(error) == None then Some((ErrorOf(q), src)) else old(error)
    {
      if error == None {
        error := Some((ErrorOf(q), src));
      }
    }

    /** One transition has been made as the automaton makes it; `d` is the state it returned. */
    ghost predicate Moved(q: State, d: State, step: Step)
      reads this
    {
      match step
      case Next(m) => error == None && Now(d) == m
      case Reject(before, code, offset) =>
        && d == ErrorState && events == before
        && (error == Some((code, offset)) || (error == None && (code, offset) == (ErrorOf(q), src)))
    }

    /** Makes the transition from `q` that the table proposes, `to` being its entry. */
    method Transit(q: State, to: State) returns (d: State)
      requires Valid() && error == None && Peek(text, src) != 0 && Invariant(text, Now(q))
      requires to == Predict(q, Tokenize(Peek(text, src)))
      modifies this`src, this`dst, this`chars, this`error, this`log, this`events, this`stack, buffer
      ensures Valid()
      ensures Moved(q, d, JsonAutomaton.Transit(text, flags, old(Now(q))))
    {
      hide Denotes, AllDenote, ScanScalar, ScanString, SkipSpace;
      d := to;
      if to == ErrorState {
        return;
      } else if to == ObjectInitial || to == ArrayInitial {
        OpenContainer(q, to);
      } else if to == MemberKey {
        ParseString(true);
        if error != None { d := ErrorState; }
      } else if to == KeyValueDelimiter {
        src := src + 1;
        Behind(src - 1);
      } else if to == MemberDelimiter || to == ElementDelimiter {
        CountItem();
      } else if to == ObjectFinish || to == ArrayFinish {
        d := FinishContainer(q, to);
      } else {
        d := FinishScalar(q, to);
      }
    }

    /** A value that is no container, as the root, as an element or as a member's value. */
    method FinishScalar(q: State, to: State) returns (d: State)
      requires Valid() && error == None && Peek(text, src) != 0 && Invariant(text, Now(q))
      requires to == Predict(q, Tokenize(Peek(text, src))) && to in {ValueState, Element, MemberValue}
      modifies this`src, this`dst, this`chars, this`error, this`log, this`events, buffer
      ensures Valid()
      ensures Moved(q, d, JsonAutomaton.Transit(text, flags, old(Now(q))))
    {
      hide Denotes, AllDenote, ScanScalar, ScanString, SkipSpace;
      ParseScalar();
      d := if error != None then ErrorState else if to == ValueState then FinishState else to;
    }

    /** The closing bracket of an object or an array, which may follow a comma only when the flags allow it. */
    method FinishContainer(q: State, to: State) returns (d: State)
      requires Valid() && error == None && Peek(text, src) != 0 && Invariant(text, Now(q))
      requires to == Predict(q, Tokenize(Peek(text, src))) && (to == ObjectFinish || to == ArrayFinish)
      modifies this`src, this`error, this`log, this`events, this`stack
      ensures Valid()
      ensures Moved(q, d, JsonAutomaton.Transit(text, flags, old(Now(q))))
    {
      hide Denotes, AllDenote, ScanScalar, ScanString, SkipSpace;
      if to == ObjectFinish {
        if !flags.trailingCommas && q == MemberDelimiter {
          error := Some((ObjectMissName, src));
          d := ErrorState;
        } else {
          d := CloseContainer(q, MemberValue, (n: nat) => EndObject(n));
        }
      } else {
        if !flags.trailingCommas && q == ElementDelimiter {
          error := Some((ValueInvalid, src));
          d := ErrorState;
        } else {
          d := CloseContainer(q, Element, (n: nat) => EndArray(n));
        }
      }
    }

    /** A value of one token, read by the recursive parser's own method. */
    method ParseScalar()
      requires Valid() && error == None && Peek(text, src) != LEFT_CURLY && Peek(text, src) != LEFT_BRACKET
      modifies this`src, this`dst, this`chars, this`error, this`log, this`events, buffer
      ensures Valid()
      ensures var r := ScanScalar(text, old(src), flags);
              if r.Bad? then error == Some((r.code, r.offset)) && events == old(events)
              else error == None && src == r.next && events == old(events) + [r.value]
    {
      hide Denotes, AllDenote, ScanScalar;
      ParseValue();
      assert old(events) + [] == old(events);
    }

    method OpenContainer(q: State, to: State)
      requires Valid() && error == None && src < |text|
      requires to == ObjectInitial || to == ArrayInitial
      modifies this`src, this`log, this`events, this`stack
      ensures Valid() && Now(to) == Open(old(Now(q)), to)
    {
      hide Denotes, AllDenote;
      var n := q;
      if q == ArrayInitial || q == ElementDelimiter {
        n := Element;
      } else if q == KeyValueDelimiter {
        n := MemberValue;
      }
      stack := stack + [Code(n)];
      stack := stack + [0];
      Emit(if to == ObjectInitial then StartObject else StartArray);
      src := src + 1;
      Behind(src - 1);
    }

    method CloseContainer(q: State, item: State, end: nat -> Event) returns (d: State)
      requires Valid() && error == None && src < |text| && |stack| >= 2
      modifies this`src, this`log, this`events, this`stack
      ensures Valid() && Now(d) == Close(old(Now(q)), item, end)
    {
      hide Denotes, AllDenote;
      var c := stack[|stack| - 1];
      stack := stack[..|stack| - 1];
      if q == item {
        c := c + 1;
      }
      d := FromCode(stack[|stack| - 1]);
      stack := stack[..|stack| - 1];
      if d == StartState {
        d := FinishState;
      }
      Emit(end(c));
      src := src + 1;
      Behind(src - 1);
    }

    method CountItem()
      requires Valid() && src < |text| && |stack| > 0
      modifies this`src, this`stack
      ensures Valid() && forall q: State, to: State :: Now(to) == Count(old(Now(q)), to)
    {
      hide Denotes, AllDenote;
      src := src + 1;
      Behind(src - 1);
      stack := stack[|stack| - 1 := stack[|stack| - 1] + 1];
    }

    /** The iterative parser. */
    method IterativeParse()
      requires Valid() && src == 0 && events == [] && error == None && stack == []
      modifies this`src, this`dst, this`chars, this`error, this`log, this`events, this`stack, buffer
      ensures Valid() && Concludes(JsonAutomaton.IterativeParse(text, flags))
    {
      hide Denotes, AllDenote, JsonAutomaton.Transit;
      var state := StartState;
      SkipWhitespace();
      ghost var outcome := JsonAutomaton.IterativeParse(text, flags);
      while buffer[src] != 0
        invariant Valid() && error == None && Invariant(text, Now(state))
        invariant outcome == Iterate(text, flags, Now(state))
        decreases |text| - src
      {
        var t := Tokenize(buffer[src]);
        var n := Predict(state, t);
        var d := Transit(state, n);
        if d == ErrorState {
          HandleError(state);
          return;
        }
        state := d;
        if flags.stopWhenDone && state == FinishState { return; }
        SkipWhitespace();
      }
      if state != FinishState {
        HandleError(state);
      }
    }

    /** A report about the rest of a construct is a report about all of it. */
    lemma Reported(before: seq<Event>, sofar: seq<Event>, r: Parsed)
      requires Reports(before + sofar, r)
      ensures Reports(before, Prepend(sofar, r))
    {
      assert before + sofar + r.events == before + (sofar + r.events);
    }
  }

  /**
   * One text parsed in place and by copying: the same error and the same events, the in-place
   * strings being readable in the buffer once the parse is over, and the copied-from buffer intact.
   */
  method ParseBothWays(a: array<byte>, b: array<byte>, f: Flags) returns (inPlace: Reader, copying: Reader)
    requires a != b && a.Length > 0 && a[..] == b[..] && a[a.Length - 1] == 0
    modifies a, b
    ensures inPlace.buffer == a && inPlace.insitu && copying.buffer == b && !copying.insitu
    ensures inPlace.error == copying.error && inPlace.events == copying.events
    ensures inPlace.error == None ==> inPlace.src == copying.src
    ensures inPlace.src < a.Length && AllDenote(inPlace.log, copying.events, a[..], inPlace.src)
    ensures b[..] == old(b[..])
  {
    hide Denotes, AllDenote, JsonDescent.Parse;
    assert b[b.Length - 1] == a[..][a.Length - 1];
    assert a[..a.Length - 1] == a[..][..a.Length - 1] == b[..b.Length - 1];
    inPlace := new Reader(a, f, true);
    copying := new Reader(b, f, false);
    ghost var text := b[..b.Length - 1];
    inPlace.Parse();
    assert copying.Valid();
    copying.Parse();
    assert forall k | 0 <= k < b.Length :: b[k] == Peek(text, k) == old(b[k]);
  }

  /** The same for the parser with the explicit stack. */
  method IterateBothWays(a: array<byte>, b: array<byte>, f: Flags) returns (inPlace: Reader, copying: Reader)
    requires a != b && a.Length > 0 && a[..] == b[..] && a[a.Length - 1] == 0
    modifies a, b
    ensures inPlace.buffer == a && inPlace.insitu && copying.buffer == b && !copying.insitu
    ensures inPlace.error == copying.error && inPlace.events == copying.events
    ensures inPlace.error == None ==> inPlace.src == copying.src
    ensures inPlace.src < a.Length && AllDenote(inPlace.log, copying.events, a[..], inPlace.src)
    ensures b[..] == old(b[..])
  {
    hide Denotes, AllDenote, JsonAutomaton.IterativeParse;
    assert b[b.Length - 1] == a[..][a.Length - 1];
    assert a[..a.Length - 1] == a[..][..a.Length - 1] == b[..b.Length - 1];
    inPlace := new Reader(a, f, true);
    copying := new Reader(b, f, false);
    ghost var text := b[..b.Length - 1];
    inPlace.IterativeParse();
    assert copying.Valid();
    copying.IterativeParse();
    assert forall k | 0 <= k < b.Length :: b[k] == Peek(text, k) == old(b[k]);
  }

  /** Reading one more item in front of the rest of the container. */
  lemma ElementsStep(s: seq<byte>, i: nat, f: Flags, count: nat, sofar: seq<Event>)
    requires i <= |s|
    ensures var item := JsonDescent.ParseValue(s, i, f);
            Prepend(sofar, JsonDescent.ParseElements(s, i, f, count)) ==
            Prepend(sofar + item.events,
                    if item.Failed? then Failed([], item.code, item.offset)
                    else JsonDescent.MoreElements(s, SkipSpace(s, item.next), f, count + 1))
  {
    hide JsonDescent.ParseValue, JsonDescent.MoreElements;
    var item := JsonDescent.ParseValue(s, i, f);
    PrependAgain(sofar, item.events, Failed([], ValueInvalid, 0));
    if item.Done? {
      PrependAgain(sofar, item.events, JsonDescent.MoreElements(s, SkipSpace(s, item.next), f, count + 1));
    }
  }

  lemma MembersStep(s: seq<byte>, i: nat, f: Flags, count: nat, sofar: seq<Event>)
    requires i <= |s|
    ensures var item := JsonDescent.ParseMember(s, i, f);
            Prepend(sofar, JsonDescent.ParseMembers(s, i, f, count)) ==
            Prepend(sofar + item.events,
                    if item.Failed? then Failed([], item.code, item.offset)
                    else JsonDescent.MoreMembers(s, item.next, f, count + 1))
  {
    hide JsonDescent.ParseMember, JsonDescent.MoreMembers;
    var item := JsonDescent.ParseMember(s, i, f);
    PrependAgain(sofar, item.events, Failed([], ValueInvalid, 0));
    if item.Done? {
      PrependAgain(sofar, item.events, JsonDescent.MoreMembers(s, item.next, f, count + 1));
    }
  }

  lemma PrependEmpty(r: Parsed)
    ensures Prepend([], r) == r
  {
    assert [] + r.events == r.events;
  }

  lemma PrependAgain(a: seq<Event>, b: seq<Event>, r: Parsed)
    ensures Prepend(a, Prepend(b, r)) == Prepend(a + b, r)
  {
    assert a + (b + r.events) == a + b + r.events;
  }

  /** The signed reading of a 32-bit and of a 64-bit pattern. */
  function ToInt32(u: nat): int {
    if u >= 0x8000_0000 then u - 0x1_0000_0000 else u
  }

  function ToInt64(u: nat): int {
    if u >= INT64_LIMIT then u - UINT64_LIMIT else u
  }

  /** Beyond 64 bits no fraction digit is kept, however many digits there were. */
  lemma FractionOfBig(s: seq<byte>, i: nat, minus: bool, n: nat, digits: nat, digits': nat)
    requires i <= |s| && digits > 0 && digits' > 0 && IntegerEvent(minus, n) == None
    ensures ScanFraction(s, i, minus, n, digits) == ScanFraction(s, i, minus, n, digits')
  {
  }

  lemma HexStep(s: seq<byte>, i: nat, n: nat, acc: nat)
    requires n > 0
    ensures var d := HexDigit(Peek(s, i));
            Hex(s, i, n, acc) == if d.Some? then Hex(s, i + 1, n - 1, acc * 16 + d.value) else None
  {
  }

  lemma HexDone(s: seq<byte>, i: nat, acc: nat)
    ensures Hex(s, i, 0, acc) == Some(acc)
  {
  }

  lemma SmallMod(x: nat, m: nat)
    requires x < m
    ensures x % m == x
  {
  }

  lemma OneDigit(s: seq<byte>, i: nat)
    requires IsDigit(Peek(s, i))
    ensures Decimal(s, i, i + 1) == DigitAt(s, i)
  {
    assert Decimal(s, i, i) == 0;
  }

  lemma AddInBuffer(log: seq<Sent>, events: seq<Event>, b: seq<byte>, limit: nat, isKey: bool, head: nat, length: nat)
    requires AllDenote(log, events, b, limit)
    requires head + length < limit <= |b| && b[head + length] == 0
    ensures AllDenote(log + [InBuffer(isKey, head, length)],
                      events + [if isKey then Key(b[head..head + length]) else String(b[head..head + length])], b,
                          limit)
  {
  }

  lemma PrependNone(a: seq<byte>, r: Lexed<seq<byte>>)
    requires a == []
    ensures PrependBytes(a, r) == r
  {
    if r.Lexed? {
      assert a + r.value == r.value;
    }
  }

  lemma PrependTwice(a: seq<byte>, b: seq<byte>, r: Lexed<seq<byte>>)
    ensures PrependBytes(a, PrependBytes(b, r)) == PrependBytes(a + b, r)
  {
    if r.Lexed? {
      assert a + (b + r.value) == a + b + r.value;
    }
  }
}
