/**
 * The lexical layer of rapidjson's reader: whitespace, literals, strings and
 * numbers, each as a function from an input and a position to what is read there.
 * An input is a C string: a NUL, or the end of the sequence, ends it.
 */
module JsonText {
  import opened Bytes
  import Utf8

  datatype ErrorCode =
    | DocumentEmpty
    | DocumentRootNotSingular
    | ValueInvalid
    | ObjectMissName
    | ObjectMissColon
    | ObjectMissCommaOrCurlyBracket
    | ArrayMissCommaOrSquareBracket
    | StringUnicodeEscapeInvalidHex
    | StringUnicodeSurrogateInvalid
    | StringEscapeInvalid
    | StringMissQuotationMark
    | StringInvalidEncoding
    | NumberTooBig
    | NumberMissFraction
    | NumberMissExponent

  /**
   * What the reader tells its handler. A double is the decimal `significand * 10^exponent` that is
   * handed to the floating-point conversion, with the sign that is applied afterwards.
   */
  datatype Event =
    | Null
    | Bool(b: bool)
    | Int(i: int)
    | Uint(u: nat)
    | Int64(i64: int)
    | Uint64(u64: nat)
    | Double(negative: bool, significand: nat, exponent: int)
    | String(text: seq<byte>)
    | StartObject
    | Key(name: seq<byte>)
    | EndObject(members: nat)
    | StartArray
    | EndArray(elements: nat)

  /**
   * Parse flags, and whether the double that the text of a number converts to overflows. The source
   * rounds as it reads, so that this depends on the text, not on the value alone.
   */
  datatype Flags = Flags(trailingCommas: bool, stopWhenDone: bool, overflows: seq<byte> -> bool)

  datatype Lexed<+T> = Lexed(value: T, next: nat) | Bad(code: ErrorCode, offset: nat)

  /* ----- whitespace ----- */

  predicate IsSpace(c: byte) {
    c == 0x20 || c == 0x0A || c == 0x0D || c == 0x09
  }

  function SkipSpace(s: seq<byte>, i: nat): (j: nat)
    requires i <= |s|
    ensures i <= j <= |s|
    ensures !IsSpace(Peek(s, j))
    decreases |s| - i
  {
    if IsSpace(Peek(s, i)) then SkipSpace(s, i + 1) else i
  }

  /* ----- null, true, false ----- */

  /** Index of the first of `word`'s bytes that does not stand at `i`, or the end of the word. */
  function Match(s: seq<byte>, i: nat, word: seq<byte>): (j: nat)
    requires i <= |s| && 0 !in word
    ensures i <= j <= i + |word| && j <= |s|
    decreases |word|
  {
    if word == [] || Peek(s, i) != word[0] then i else Match(s, i + 1, word[1..])
  }

  const NULL_REST: seq<byte> := [0x75, 0x6C, 0x6C]
  const TRUE_REST: seq<byte> := [0x72, 0x75, 0x65]
  const FALSE_REST: seq<byte> := [0x61, 0x6C, 0x73, 0x65]

  /** A literal whose first byte has been seen: the rest is consumed as far as it matches. */
  function ScanLiteral(s: seq<byte>, i: nat, rest: seq<byte>, event: Event): (r: Lexed<Event>)
    requires i < |s| && 0 !in rest
    ensures r.Lexed? ==> i < r.next <= |s|
  {
    var j := Match(s, i + 1, rest);
    if j == i + 1 + |rest| then Lexed(event, j) else Bad(ValueInvalid, j)
  }

  /* ----- strings ----- */

  function HexDigit(c: byte): Option<nat> {
    if ZERO <= c <= NINE then Some(c - ZERO)
    else if CAPITAL_A <= c <= CAPITAL_F then Some(c - CAPITAL_A + 10)
    else if LETTER_A <= c <= LETTER_F then Some(c - LETTER_A + 10)
    else None
  }

  /** `n` hexadecimal digits at `i`, most significant first, on top of `acc`. */
  function Hex(s: seq<byte>, i: nat, n: nat, acc: nat): Option<nat>
    decreases n
  {
    if n == 0 then Some(acc)
    else
      match HexDigit(Peek(s, i))
      case None => None
      case Some(d) => Hex(s, i + 1, n - 1, acc * 16 + d)
  }

  lemma {:induction false} HexBound(s: seq<byte>, i: nat, n: nat, acc: nat, bound: nat)
    requires acc < bound && Hex(s, i, n, acc).Some? && i <= |s|
    ensures i + n <= |s|
    ensures n == 4 ==> Hex(s, i, n, acc).value < bound * 65536
    ensures n == 3 ==> Hex(s, i, n, acc).value < bound * 4096
    ensures n == 2 ==> Hex(s, i, n, acc).value < bound * 256
    ensures n == 1 ==> Hex(s, i, n, acc).value < bound * 16
    decreases n
  {
    if n > 0 {
      HexBound(s, i + 1, n - 1, acc * 16 + HexDigit(Peek(s, i)).value, bound * 16);
    }
  }

  /** The byte a one-letter escape stands for; 0 when the letter is none. */
  function Unescaped(e: byte): byte {
    if e == QUOTE || e == SLASH || e == BACKSLASH then e
    else if e == LETTER_B then 0x08
    else if e == LETTER_F then 0x0C
    else if e == LETTER_N then 0x0A
    else if e == LETTER_R then 0x0D
    else if e == LETTER_T then 0x09
    else 0
  }

  predicate IsHighSurrogate(cp: int) { 0xD800 <= cp <= 0xDBFF }

  predicate IsLowSurrogate(cp: int) { 0xDC00 <= cp <= 0xDFFF }

  function Combine(high: nat, low: nat): nat
    requires IsHighSurrogate(high) && IsLowSurrogate(low)
  {
    (high - 0xD800) * 1024 + (low - 0xDC00) + 0x10000
  }

  /** The code point of the `\\u` escape whose backslash stands at `i`: one escape or a surrogate pair. */
  function ScanCodepoint(s: seq<byte>, i: nat): (r: Lexed<nat>)
    requires i < |s|
    ensures r.Lexed? ==> i + 6 <= r.next <= |s| && r.value <= 0x10FFFF && (r.value > 0xFFFF ==> r.next == i + 12)
    ensures r.Bad? ==> r.offset == i
  {
    match Hex(s, i + 2, 4, 0)
    case None => Bad(StringUnicodeEscapeInvalidHex, i)
    case Some(cp) =>
      HexBound(s, i + 2, 4, 0, 1);
      if !IsHighSurrogate(cp) then Lexed(cp, i + 6)
      else if Peek(s, i + 6) != BACKSLASH || Peek(s, i + 7) != LETTER_U then
        Bad(StringUnicodeSurrogateInvalid, i)
      else
        match Hex(s, i + 8, 4, 0)
        case None => Bad(StringUnicodeEscapeInvalidHex, i)
        case Some(low) =>
          HexBound(s, i + 8, 4, 0, 1);
          if IsLowSurrogate(low) then Lexed(Combine(cp, low), i + 12)
          else Bad(StringUnicodeSurrogateInvalid, i)
  }

  /** The escape whose backslash stands at `i`: the bytes it decodes to and where it ends. */
  function ScanEscape(s: seq<byte>, i: nat): (r: Lexed<seq<byte>>)
    requires i < |s|
    ensures r.Lexed? ==> i + 1 < r.next <= |s| && 1 <= |r.value| < r.next - i
    ensures r.Bad? ==> r.offset == i
  {
    var e := Peek(s, i + 1);
    if Unescaped(e) != 0 then Lexed([Unescaped(e)], i + 2)
    else if e != LETTER_U then Bad(StringEscapeInvalid, i)
    else
      match ScanCodepoint(s, i)
      case Bad(code, offset) => Bad(code, offset)
      case Lexed(cp, next) => Lexed(Utf8.Encode(cp), next)
  }

  function PrependBytes(text: seq<byte>, r: Lexed<seq<byte>>): Lexed<seq<byte>> {
    match r
    case Lexed(value, next) => Lexed(text + value, next)
    case Bad(_, _) => r
  }

  /** The rest of a string whose opening quote has been taken, up to and past its closing quote. */
  function ScanString(s: seq<byte>, i: nat): (r: Lexed<seq<byte>>)
    requires i <= |s|
    ensures r.Lexed? ==> i < r.next <= |s|
    decreases |s| - i
  {
    var c := Peek(s, i);
    if c == BACKSLASH then
      match ScanEscape(s, i)
      case Bad(code, offset) => Bad(code, offset)
      case Lexed(text, next) => PrependBytes(text, ScanString(s, next))
    else if c == QUOTE then Lexed([], i + 1)
    else if c == 0 then Bad(StringMissQuotationMark, i)
    else if c < 0x20 then Bad(StringInvalidEncoding, i)
    else PrependBytes([c], ScanString(s, i + 1))
  }

  /* ----- numbers ----- */

  function DigitAt(s: seq<byte>, i: nat): nat
    requires IsDigit(Peek(s, i))
  {
    Peek(s, i) - ZERO
  }

  /** The end of the run of digits at `i`. */
  function DigitsEnd(s: seq<byte>, i: nat): (j: nat)
    requires i <= |s|
    ensures i <= j <= |s|
    ensures !IsDigit(Peek(s, j))
    ensures forall k | i <= k < j :: IsDigit(Peek(s, k))
    decreases |s| - i
  {
    if IsDigit(Peek(s, i)) then DigitsEnd(s, i + 1) else i
  }

  /** The number that the digits in `s[i..j]` write. */
  function Decimal(s: seq<byte>, i: nat, j: nat): nat
    requires i <= j && forall k | i <= k < j :: IsDigit(Peek(s, k))
    decreases j
  {
    if i == j then 0 else Decimal(s, i, j - 1) * 10 + DigitAt(s, j - 1)
  }

  lemma {:induction false} DecimalMonotone(s: seq<byte>, i: nat, j: nat, k: nat)
    requires i <= j <= k && forall m | i <= m < k :: IsDigit(Peek(s, m))
    ensures Decimal(s, i, j) <= Decimal(s, i, k)
    decreases k
  {
    if j < k {
      DecimalMonotone(s, i, j, k - 1);
    }
  }

  function Pow10(n: nat): nat {
    if n == 0 then 1 else 10 * Pow10(n - 1)
  }

  lemma {:induction false} DecimalBound(s: seq<byte>, i: nat, j: nat)
    requires i <= j && forall m | i <= m < j :: IsDigit(Peek(s, m))
    ensures Decimal(s, i, j) < Pow10(j - i)
    decreases j
  {
    if i < j {
      DecimalBound(s, i, j - 1);
    }
  }

  lemma {:induction false} Pow10Monotone(m: nat, n: nat)
    requires m <= n
    ensures Pow10(m) <= Pow10(n)
    decreases n
  {
    if m < n {
      Pow10Monotone(m, n - 1);
    }
  }

  lemma Pow10Of17()
    ensures Pow10(17) == 100_000_000_000_000_000
  {
    assert Pow10(5) == 100_000;
    assert Pow10(10) == 10_000_000_000;
    assert Pow10(15) == 1_000_000_000_000_000;
  }

  /** A number of 10^17 or more has more than 17 digits. */
  lemma LongDecimal(s: seq<byte>, i: nat, j: nat)
    requires i <= j && forall m | i <= m < j :: IsDigit(Peek(s, m))
    requires Decimal(s, i, j) >= 100_000_000_000_000_000
    ensures j - i > 17
  {
    if j - i <= 17 {
      DecimalBound(s, i, j);
      Pow10Monotone(j - i, 17);
      Pow10Of17();
    }
  }

  const INT64_LIMIT: nat := 0x8000_0000_0000_0000
  const UINT64_LIMIT: nat := 0x1_0000_0000_0000_0000
  const FAST_LIMIT: nat := 0x1F_FFFF_FFFF_FFFF

  /** An integer is delivered in the narrowest of four types, or as a double outside all of them. */
  function IntegerEvent(negative: bool, n: nat): Option<Event> {
    if negative then
      if n <= 0x8000_0000 then Some(Int(0 - n))
      else if n <= INT64_LIMIT then Some(Int64(0 - n))
      else None
    else
      if n < 0x1_0000_0000 then Some(Uint(n))
      else if n < UINT64_LIMIT then Some(Uint64(n))
      else None
  }

  /** The significand with the fraction digits that are kept, and how many those are. */
  datatype Fraction = Fraction(significand: nat, kept: nat)

  /**
   * Fraction digits are kept while the significand is at most 2^53 - 1, and after that while fewer
   * than 17 significant digits have been seen; the others are read and dropped.
   */
  function KeepFraction(s: seq<byte>, i: nat, m: nat, significant: nat, kept: nat): Fraction
    requires i <= |s|
    decreases |s| - i
  {
    if !IsDigit(Peek(s, i)) then Fraction(m, kept)
    else
      var m' := m * 10 + DigitAt(s, i);
      if m <= FAST_LIMIT then
        KeepFraction(s, i + 1, m', if m' != 0 then significant + 1 else significant, kept + 1)
      else if significant < 17 then KeepFraction(s, i + 1, m', significant + 1, kept + 1)
      else Fraction(m, kept)
  }

  /** Reads an exponent's digits on top of `e`, giving up when it passes `limit`. */
  function ExponentUp(s: seq<byte>, i: nat, e: nat, limit: int): Option<nat>
    requires i <= |s|
    decreases |s| - i
  {
    if !IsDigit(Peek(s, i)) then Some(e)
    else
      var e' := e * 10 + DigitAt(s, i);
      if e' > limit then None else ExponentUp(s, i + 1, e', limit)
  }

  /** As `ExponentUp`, but the digits after the one that passes `limit` are skipped. */
  function ExponentDown(s: seq<byte>, i: nat, e: nat, limit: int): nat
    requires i <= |s|
    decreases |s| - i
  {
    if !IsDigit(Peek(s, i)) then e
    else
      var e' := e * 10 + DigitAt(s, i);
      if e' > limit then e' else ExponentDown(s, i + 1, e', limit)
  }

  /** The exponent part at `i`, if there is one; a value of `None` means no exponent was written. */
  function ScanExponent(s: seq<byte>, i: nat, kept: nat, start: nat): (r: Lexed<Option<int>>)
    requires i <= |s|
    ensures r.Lexed? ==> i <= r.next <= |s| && (r.value.None? <==> r.next == i)
  {
    if Peek(s, i) != LETTER_E && Peek(s, i) != CAPITAL_E then Lexed(None, i)
    else
      var signed := Peek(s, i + 1) == PLUS || Peek(s, i + 1) == MINUS;
      var j := if signed then i + 2 else i + 1;
      if !IsDigit(Peek(s, j)) then Bad(NumberMissExponent, j)
      else if Peek(s, i + 1) == MINUS then
        Lexed(Some(0 - ExponentDown(s, j + 1, DigitAt(s, j), (2147483639 - kept) / 10)), DigitsEnd(s, j))
      else
        match ExponentUp(s, j + 1, DigitAt(s, j), 308 + kept)
        case None => Bad(NumberTooBig, start)
        case Some(e) => Lexed(Some(e), DigitsEnd(s, j))
  }

  /** The fraction part at `i`, if there is one, after `digits` digits writing the integer `n`. */
  function ScanFraction(s: seq<byte>, i: nat, negative: bool, n: nat, digits: nat): (r: Lexed<Option<Fraction>>)
    requires i <= |s| && digits > 0
    ensures r.Lexed? ==> i <= r.next <= |s| && (r.value.None? <==> r.next == i)
  {
    if Peek(s, i) != DOT then Lexed(None, i)
    else if !IsDigit(Peek(s, i + 1)) then Bad(NumberMissFraction, i + 1)
    else
      var fraction := if IntegerEvent(negative, n).Some? then KeepFraction(s, i + 1, n, digits - 1, 0)
          else Fraction(n, 0);
      Lexed(Some(fraction), DigitsEnd(s, i + 1))
  }

  /** The event for the parts of a number that starts at `i` and ends at `next`. */
  function Deliver(s: seq<byte>, i: nat, negative: bool, n: nat, fraction: Option<Fraction>, exponent: Option<int>,
                   next: nat, f: Flags): Lexed<Event>
    requires i <= next <= |s|
  {
    var integer := IntegerEvent(negative, n);
    if fraction.None? && exponent.None? && integer.Some? then Lexed(integer.value, next)
    else
      var (m, kept) := if fraction.Some? then (fraction.value.significand, fraction.value.kept) else (n, 0);
      var p := (if exponent.Some? then exponent.value else 0) - kept;
      if f.overflows(s[i..next]) then Bad(NumberTooBig, i) else Lexed(Double(negative, m, p), next)
  }

  /** What follows the `digits` digits that write the integer `n` and end at `b`, of a number that starts at `i`. */
  function ScanRest(s: seq<byte>, i: nat, negative: bool, n: nat, digits: nat, b: nat, f: Flags): (r: Lexed<Event>)
    requires i < b <= |s| && digits > 0
    ensures r.Lexed? ==> i < r.next <= |s|
  {
    match ScanFraction(s, b, negative, n, digits)
    case Bad(code, offset) => Bad(code, offset)
    case Lexed(fraction, c) =>
      match ScanExponent(s, c, if fraction.Some? then fraction.value.kept else 0, i)
      case Bad(code, offset) => Bad(code, offset)
      case Lexed(exponent, d) => Deliver(s, i, negative, n, fraction, exponent, d, f)
  }

  /** A number: the event to deliver, after the last byte that belongs to it. */
  function ScanNumber(s: seq<byte>, i: nat, f: Flags): (r: Lexed<Event>)
    requires i <= |s|
    ensures r.Lexed? ==> i < r.next <= |s|
  {
    var negative := Peek(s, i) == MINUS;
    var a := if negative then i + 1 else i;
    if !IsDigit(Peek(s, a)) then Bad(ValueInvalid, a)
    else
      var b := if Peek(s, a) == ZERO then a + 1 else DigitsEnd(s, a);
      ScanRest(s, i, negative, Decimal(s, a, b), b - a, b, f)
  }
}
