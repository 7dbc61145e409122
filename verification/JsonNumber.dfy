/**
 * Numbers: section 6 of RFC 8259 as a grammar, and that reading a number depends on nothing but its
 * own text, once no byte follows that could be part of a number.
 */
module JsonNumber {
  import opened Bytes
  import Utf8
  import opened JsonText

  predicate NumberByte(c: byte) {
    0x30 <= c <= 0x39 || c in {0x2E, 0x65, 0x45, 0x2B, 0x2D}
  }

  /** The digits `t` stand in `s` at `i`, and no more follow. */
  predicate DigitWindow(s: seq<byte>, i: nat, t: seq<byte>) {
    Utf8.At(s, i, t) && !IsDigit(Peek(s, i + |t|))
  }

  lemma PeekDigit(s: seq<byte>, i: nat, t: seq<byte>, k: nat)
    requires DigitWindow(s, i, t) && k <= |t|
    ensures if k < |t| then Peek(s, i + k) == Peek(t, k) else !IsDigit(Peek(s, i + k)) && !IsDigit(Peek(t, k))
  {
    Utf8.AtPeek(s, i, t);
  }

  /** The text `t` stands in `s` at `i`, and ends there. */
  predicate Window(s: seq<byte>, i: nat, t: seq<byte>) {
    Utf8.At(s, i, t) && !NumberByte(Peek(s, i + |t|))
  }

  lemma PeekWindow(s: seq<byte>, i: nat, t: seq<byte>, k: nat)
    requires Window(s, i, t) && k <= |t|
    ensures if k < |t| then Peek(s, i + k) == Peek(t, k) else !NumberByte(Peek(s, i + k)) && !NumberByte(Peek(t, k))
  {
    Utf8.AtPeek(s, i, t);
  }

  function Moved<T>(r: Lexed<T>, i: nat): Lexed<T> {
    match r
    case Lexed(value, next) => Lexed(value, next + i)
    case Bad(code, offset) => Bad(code, offset + i)
  }

  /* ----- reading in the window ----- */

  lemma {:induction false} DigitsEndMoves(s: seq<byte>, i: nat, t: seq<byte>, k: nat)
    requires DigitWindow(s, i, t) && k <= |t|
    ensures DigitsEnd(s, i + k) == i + DigitsEnd(t, k)
    decreases |t| - k
  {
    PeekDigit(s, i, t, k);
    if k < |t| && IsDigit(Peek(t, k)) {
      DigitsEndMoves(s, i, t, k + 1);
    }
  }

  lemma {:induction false} DecimalMoves(s: seq<byte>, i: nat, t: seq<byte>, a: nat, b: nat)
    requires DigitWindow(s, i, t) && a <= b <= |t| && forall k | a <= k < b :: IsDigit(Peek(t, k))
    ensures forall k | i + a <= k < i + b :: IsDigit(Peek(s, k))
    ensures Decimal(s, i + a, i + b) == Decimal(t, a, b)
    decreases b
  {
    forall k | i + a <= k < i + b ensures IsDigit(Peek(s, k)) {
      PeekDigit(s, i, t, k - i);
    }
    if a < b {
      DecimalMoves(s, i, t, a, b - 1);
      PeekDigit(s, i, t, b - 1);
    }
  }

  lemma {:induction false} KeepFractionMoves(s: seq<byte>, i: nat, t: seq<byte>, k: nat, m: nat, significant: nat,
                                             kept: nat)
    requires DigitWindow(s, i, t) && k <= |t|
    ensures KeepFraction(s, i + k, m, significant, kept) == KeepFraction(t, k, m, significant, kept)
    decreases |t| - k
  {
    PeekDigit(s, i, t, k);
    if k < |t| && IsDigit(Peek(t, k)) {
      var m' := m * 10 + DigitAt(t, k);
      KeepFractionMoves(s, i, t, k + 1, m', if m' != 0 then significant + 1 else significant, kept + 1);
      KeepFractionMoves(s, i, t, k + 1, m', significant + 1, kept + 1);
    }
  }

  lemma {:induction false} ExponentMoves(s: seq<byte>, i: nat, t: seq<byte>, k: nat, e: nat, limit: int)
    requires DigitWindow(s, i, t) && k <= |t|
    ensures ExponentUp(s, i + k, e, limit) == ExponentUp(t, k, e, limit)
    ensures ExponentDown(s, i + k, e, limit) == ExponentDown(t, k, e, limit)
    decreases |t| - k
  {
    PeekDigit(s, i, t, k);
    if k < |t| && IsDigit(Peek(t, k)) {
      ExponentMoves(s, i, t, k + 1, e * 10 + DigitAt(t, k), limit);
    }
  }

  lemma ScanFractionMoves(s: seq<byte>, i: nat, t: seq<byte>, k: nat, negative: bool, n: nat, digits: nat)
    requires Window(s, i, t) && k <= |t| && digits > 0
    ensures ScanFraction(s, i + k, negative, n, digits) == Moved(ScanFraction(t, k, negative, n, digits), i)
  {
    hide KeepFraction, IntegerEvent, DigitsEnd;
    PeekWindow(s, i, t, k);
    if k < |t| && Peek(t, k) == DOT {
      PeekWindow(s, i, t, k + 1);
      DigitsEndMoves(s, i, t, k + 1);
      KeepFractionMoves(s, i, t, k + 1, n, digits - 1, 0);
    }
  }

  lemma ScanExponentMoves(s: seq<byte>, i: nat, t: seq<byte>, k: nat, kept: nat)
    requires Window(s, i, t) && k <= |t|
    ensures ScanExponent(s, i + k, kept, i) == Moved(ScanExponent(t, k, kept, 0), i)
  {
    hide ExponentUp, ExponentDown, DigitsEnd;
    PeekWindow(s, i, t, k);
    if k < |t| && (Peek(t, k) == LETTER_E || Peek(t, k) == CAPITAL_E) {
      PeekWindow(s, i, t, k + 1);
      var signed := Peek(t, k + 1) == PLUS || Peek(t, k + 1) == MINUS;
      var j := if signed then k + 2 else k + 1;
      PeekWindow(s, i, t, j);
      if j < |t| && IsDigit(Peek(t, j)) {
        DigitsEndMoves(s, i, t, j);
        ExponentMoves(s, i, t, j + 1, DigitAt(t, j), (2147483639 - kept) / 10);
        ExponentMoves(s, i, t, j + 1, DigitAt(t, j), 308 + kept);
      }
    }
  }

  lemma ScanRestMoves(s: seq<byte>, i: nat, t: seq<byte>, negative: bool, n: nat, digits: nat, b: nat, f: Flags)
    requires Window(s, i, t) && 0 < b <= |t| && digits > 0
    ensures ScanRest(s, i, negative, n, digits, i + b, f) == Moved(ScanRest(t, 0, negative, n, digits, b, f), i)
  {
    hide ScanFraction, ScanExponent, IntegerEvent;
    ScanFractionMoves(s, i, t, b, negative, n, digits);
    var fraction := ScanFraction(t, b, negative, n, digits);
    if fraction.Lexed? {
      var kept := if fraction.value.Some? then fraction.value.value.kept else 0;
      ScanExponentMoves(s, i, t, fraction.next, kept);
      var exponent := ScanExponent(t, fraction.next, kept, 0);
      if exponent.Lexed? {
        assert s[i..i + exponent.next] == s[i..i + |t|][..exponent.next];
        assert t[0..exponent.next] == t[..exponent.next];
      }
    }
  }

  /** A number is read from its own text as from any place where it stands. */
  lemma ScanNumberMoves(s: seq<byte>, i: nat, t: seq<byte>, f: Flags)
    requires Window(s, i, t)
    ensures ScanNumber(s, i, f) == Moved(ScanNumber(t, 0, f), i)
  {
    hide ScanRest, Decimal, DigitsEnd;
    PeekWindow(s, i, t, 0);
    var a := if t != [] && Peek(t, 0) == MINUS then 1 else 0;
    PeekWindow(s, i, t, a);
    if a < |t| && IsDigit(Peek(t, a)) {
      DigitsEndMoves(s, i, t, a);
      var b := if Peek(t, a) == ZERO then a + 1 else DigitsEnd(t, a);
      DecimalMoves(s, i, t, a, b);
      ScanRestMoves(s, i, t, a == 1, Decimal(t, a, b), b - a, b, f);
    }
  }

  /* ----- the grammar ----- */

  datatype Exponent = Exponent(letter: byte, sign: seq<byte>, digits: seq<byte>)

  datatype Number = Number(minus: bool, digits: seq<byte>, fraction: Option<seq<byte>>, exponent: Option<Exponent>)

  predicate AllDigits(d: seq<byte>) { forall k | 0 <= k < |d| :: 0x30 <= d[k] <= 0x39 }

  predicate Digits(d: seq<byte>) { d != [] && AllDigits(d) }

  predicate ValidExponent(e: Exponent) {
    e.letter in {0x65, 0x45} && e.sign in {[], [0x2B], [0x2D]} && Digits(e.digits)
  }

  predicate ValidNumber(n: Number) {
    && Digits(n.digits) && (|n.digits| > 1 ==> n.digits[0] != 0x30)
    && (n.fraction.Some? ==> Digits(n.fraction.value)) && (n.exponent.Some? ==> ValidExponent(n.exponent.value))
  }

  function FractionText(n: Number): seq<byte> {
    if n.fraction.Some? then [0x2E] + n.fraction.value else []
  }

  function ExponentText(n: Number): seq<byte> {
    if n.exponent.Some? then [n.exponent.value.letter] + n.exponent.value.sign + n.exponent.value.digits else []
  }

  function NumberText(n: Number): seq<byte> {
    (if n.minus then [0x2D] else []) + n.digits + FractionText(n) + ExponentText(n)
  }

  /* ----- what a number means ----- */

  /** The value of a string of digits. */
  function Value(d: seq<byte>): nat
    requires AllDigits(d)
  {
    if d == [] then 0 else 10 * Value(d[..|d| - 1]) + (d[|d| - 1] - 0x30)
  }

  function FractionDigits(n: Number): seq<byte> {
    if n.fraction.Some? then n.fraction.value else []
  }

  /** The digits of the integer and the first `k` of the fraction, read as one integer. */
  function Significand(n: Number, k: nat): nat
    requires ValidNumber(n) && k <= |FractionDigits(n)|
  {
    Value(n.digits + FractionDigits(n)[..k])
  }

  /** The integer digits but one, and those of the first `k` fraction digits that are no leading zeros. */
  function Significant(n: Number, k: nat): nat
    requires ValidNumber(n) && k <= |FractionDigits(n)|
  {
    if k == 0 then |n.digits| - 1 else Significant(n, k - 1) + if Significand(n, k) > 0 then 1 else 0
  }

  /** No more fraction digits are kept: the significand is beyond 2^53 - 1 and has 17 significant digits. */
  predicate Enough(n: Number, k: nat)
    requires ValidNumber(n) && k <= |FractionDigits(n)|
  {
    Significand(n, k) > 0x1F_FFFF_FFFF_FFFF && Significant(n, k) >= 17
  }

  /** The digits of the integer fit the signed or the unsigned 64-bit integers. */
  predicate Fits(n: Number)
    requires ValidNumber(n)
  {
    if n.minus then Value(n.digits) <= 9223372036854775808 else Value(n.digits) <= 18446744073709551615
  }

  /** The first number of fraction digits, from `k` on, that is enough, or all of them. */
  function KeptFrom(n: Number, k: nat): (r: nat)
    requires ValidNumber(n) && k <= |FractionDigits(n)|
    ensures k <= r <= |FractionDigits(n)|
    ensures r < |FractionDigits(n)| ==> Enough(n, r)
    ensures forall j | k <= j < r :: !Enough(n, j)
    decreases |FractionDigits(n)| - k
  {
    if k == |FractionDigits(n)| || Enough(n, k) then k else KeptFrom(n, k + 1)
  }

  /** How many fraction digits the reader keeps: none behind an integer beyond 64 bits. */
  function Kept(n: Number): (k: nat)
    requires ValidNumber(n)
    ensures k <= |FractionDigits(n)|
  {
    if Fits(n) then KeptFrom(n, 0) else 0
  }

  /** Leaving out the digits after one that brings the number, from its second digit on, beyond the limit. */
  function Saturated(d: seq<byte>, k: nat, limit: int): nat
    requires AllDigits(d) && k <= |d|
    decreases |d| - k
  {
    if k == |d| || (k > 1 && Value(d[..k]) > limit) then Value(d[..k]) else Saturated(d, k + 1, limit)
  }

  /** The exponent as it is written; far below every double, its last digits are left out. */
  function WrittenExponent(n: Number): int
    requires ValidNumber(n)
  {
    if n.exponent.None? then 0
    else if n.exponent.value.sign == [0x2D] then 0 - Saturated(n.exponent.value.digits, 1, (2147483639 - Kept(n)) / 10)
    else Value(n.exponent.value.digits)
  }

  /** Neither fraction nor exponent is written, and the integer fits 64 bits. */
  predicate IsInteger(n: Number)
    requires ValidNumber(n)
  {
    n.fraction.None? && n.exponent.None? && Fits(n)
  }

  /**
   * What a handler is told: an integer as the narrowest of four types, and anything else as a double,
   * the significand of the digits kept, times ten to the written exponent less the fraction digits kept.
   */
  function NumberMeaning(n: Number): Event
    requires ValidNumber(n)
  {
    if !IsInteger(n) then Double(n.minus, Significand(n, Kept(n)), WrittenExponent(n) - Kept(n))
    else
      var v := Value(n.digits);
      if n.minus then if v <= 2147483648 then Int(0 - v) else Int64(0 - v)
      else if v <= 4294967295 then Uint(v) else Uint64(v)
  }

  /** The written exponent is refused, or the conversion to a double overflows. */
  predicate TooBig(n: Number, f: Flags)
    requires ValidNumber(n)
  {
    || (n.exponent.Some? && n.exponent.value.sign != [0x2D] && Value(n.exponent.value.digits) > 308 + Kept(n))
    || (!IsInteger(n) && f.overflows(NumberText(n)))
  }

  lemma {:induction false} SignificantBound(n: Number, k: nat)
    requires ValidNumber(n) && k <= |FractionDigits(n)|
    ensures |n.digits| - 1 <= Significant(n, k) <= |n.digits| - 1 + k
    decreases k
  {
    if k > 0 {
      SignificantBound(n, k - 1);
    }
  }

  /**
   * All fraction digits are kept exactly when no beginning of them that is shorter is enough, and so
   * whenever integer and fraction have at most 17 digits.
   */
  lemma AllKept(n: Number)
    requires ValidNumber(n) && Fits(n)
    ensures Kept(n) == |FractionDigits(n)| <==> forall k | 0 <= k < |FractionDigits(n)| :: !Enough(n, k)
    ensures |n.digits| + |FractionDigits(n)| <= 17 ==> Kept(n) == |FractionDigits(n)|
  {
    hide Significand, ValidNumber;
    assert Kept(n) == KeptFrom(n, 0);
    if |n.digits| + |FractionDigits(n)| <= 17 && Kept(n) < |FractionDigits(n)| {
      SignificantBound(n, Kept(n));
    }
  }

  lemma {:induction false} ValueGrows(d: seq<byte>, k: nat)
    requires AllDigits(d) && k <= |d|
    ensures Value(d[..k]) <= Value(d)
    decreases |d| - k
  {
    if k == |d| {
      assert d[..k] == d;
    } else {
      assert d[..k + 1][..k] == d[..k];
      ValueGrows(d, k + 1);
    }
  }

  lemma {:induction false} SaturatedIs(d: seq<byte>, k: nat, limit: nat)
    requires AllDigits(d) && k <= |d| && limit >= 9 && (k <= 1 || Value(d[..k]) <= limit)
    ensures if Value(d) <= limit then Saturated(d, k, limit) == Value(d) else limit < Saturated(d, k, limit) <= Value(d)
    ensures Saturated(d, k, limit) <= 10 * limit + 9
    decreases |d| - k
  {
    hide AllDigits;
    ValueGrows(d, k);
    SmallValue(d, k);
    if k == |d| {
      assert d[..k] == d;
    } else {
      assert d[..k + 1][..k] == d[..k];
      Shorter(d, k + 1);
      ValueGrows(d, k + 1);
      if k == 0 || Value(d[..k + 1]) <= limit {
        SmallValue(d, k + 1);
        SaturatedIs(d, k + 1, limit);
      }
    }
  }

  lemma Shorter(d: seq<byte>, k: nat)
    requires AllDigits(d) && 0 < k <= |d|
    ensures AllDigits(d[..k]) && 0 <= d[k - 1] - 0x30 <= 9
  {
  }

  lemma SmallValue(d: seq<byte>, k: nat)
    requires AllDigits(d) && k <= |d|
    ensures k <= 1 ==> Value(d[..k]) <= 9
  {
    if k == 1 {
      assert d[..1][..0] == [];
    }
  }

  /**
   * The exponent is the one that is written. A negative one beyond the limit stays beyond it, and with the
   * fraction digits kept it is no less than -2^31.
   */
  lemma ExponentExact(n: Number)
    requires ValidNumber(n) && n.exponent.Some? && Kept(n) <= 2147483549
    ensures n.exponent.value.sign != [0x2D] ==> WrittenExponent(n) == Value(n.exponent.value.digits)
    ensures n.exponent.value.sign == [0x2D] ==>
              if Value(n.exponent.value.digits) <= (2147483639 - Kept(n)) / 10
              then WrittenExponent(n) == 0 - Value(n.exponent.value.digits)
              else Kept(n) - 2147483648 <= WrittenExponent(n) < 0 - (2147483639 - Kept(n)) / 10
  {
    hide Value, Saturated, Kept;
    SaturatedIs(n.exponent.value.digits, 1, (2147483639 - Kept(n)) / 10);
  }

  /* ----- reading what the grammar writes ----- */

  /** The two ways to read a string of digits agree. */
  lemma {:induction false} DecimalIsValue(d: seq<byte>, k: nat)
    requires AllDigits(d) && k <= |d|
    ensures Decimal(d, 0, k) == Value(d[..k])
    decreases k
  {
    if k > 0 {
      DecimalIsValue(d, k - 1);
      assert d[..k][..k - 1] == d[..k - 1];
    }
  }

  lemma WholeValue(d: seq<byte>)
    requires AllDigits(d)
    ensures Decimal(d, 0, |d|) == Value(d)
  {
    DecimalIsValue(d, |d|);
    assert d[..|d|] == d;
  }

  /** A run of digits, read where it stands. */
  lemma DigitsRead(s: seq<byte>, i: nat, d: seq<byte>)
    requires Digits(d) && DigitWindow(s, i, d)
    ensures DigitsEnd(s, i) == i + |d| && IsDigit(Peek(s, i)) && Peek(s, i) == d[0]
    ensures forall k | i <= k < i + |d| :: IsDigit(Peek(s, k))
    ensures Decimal(s, i, i + |d|) == Value(d)
  {
    PeekDigit(s, i, d, 0);
    DigitsEndMoves(s, i, d, 0);
    AllDigitsEnd(d, 0);
    DecimalMoves(s, i, d, 0, |d|);
    WholeValue(d);
  }

  lemma {:induction false} AllDigitsEnd(d: seq<byte>, k: nat)
    requires Digits(d) && k <= |d|
    ensures DigitsEnd(d, k) == |d|
    decreases |d| - k
  {
    if k < |d| {
      AllDigitsEnd(d, k + 1);
    }
  }

  /** Reading upwards gives up exactly when the number passes the limit. */
  lemma {:induction false} UpReads(d: seq<byte>, k: nat, limit: nat)
    requires Digits(d) && 0 < k <= |d| && Value(d[..k]) <= limit
    ensures ExponentUp(d, k, Value(d[..k]), limit) == if Value(d) <= limit then Some(Value(d)) else None
    decreases |d| - k
  {
    if k < |d| {
      NextDigit(d, k);
      ValueGrows(d, k + 1);
      if Value(d[..k + 1]) <= limit {
        UpReads(d, k + 1, limit);
      }
    } else {
      assert d[..k] == d;
    }
  }

  lemma NextDigit(d: seq<byte>, k: nat)
    requires AllDigits(d) && k < |d|
    ensures IsDigit(Peek(d, k)) && Value(d[..k + 1]) == Value(d[..k]) * 10 + DigitAt(d, k)
  {
    assert d[..k + 1][..k] == d[..k];
  }

  /** Reading downwards skips what is left out. */
  lemma {:induction false} DownReads(d: seq<byte>, k: nat, limit: int)
    requires Digits(d) && 0 < k <= |d| && (k > 1 ==> Value(d[..k]) <= limit)
    ensures ExponentDown(d, k, Value(d[..k]), limit) == Saturated(d, k, limit)
    decreases |d| - k
  {
    if k < |d| {
      NextDigit(d, k);
      if Value(d[..k + 1]) <= limit {
        DownReads(d, k + 1, limit);
      }
    }
  }

  /** The exponent part at the end of the text. */
  lemma ExponentReads(s: seq<byte>, c: nat, e: Exponent, kept: nat, start: nat)
    requires ValidExponent(e) && c <= |s| && s[c..] == [e.letter] + e.sign + e.digits
    ensures var r := ScanExponent(s, c, kept, start);
            r == if e.sign == [0x2D] then Lexed(Some(0 - Saturated(e.digits, 1, (2147483639 - kept) / 10)), |s|)
                else if Value(e.digits) > 308 + kept then Bad(NumberTooBig, start)
                else Lexed(Some(Value(e.digits)), |s|)
  {
    hide ExponentUp, ExponentDown, DigitsEnd, Decimal, Saturated;
    var j := c + 1 + |e.sign|;
    assert s[c..][0] == s[c];
    assert Utf8.At(s, c, [e.letter] + e.sign + e.digits);
    Utf8.AtSplit(s, c, [e.letter] + e.sign, e.digits);
    Utf8.AtSplit(s, c, [e.letter], e.sign);
    Utf8.AtPeek(s, c + 1, e.sign);
    assert e.sign != [] ==> Peek(s, c + 1 + 0) == e.sign[0];
    DigitsRead(s, j, e.digits);
    FirstDigit(e.digits);
    if e.sign == [0x2D] {
      DownReads(e.digits, 1, (2147483639 - kept) / 10);
      ExponentMoves(s, j, e.digits, 1, DigitAt(e.digits, 0), (2147483639 - kept) / 10);
    } else {
      UpReads(e.digits, 1, 308 + kept);
      ExponentMoves(s, j, e.digits, 1, DigitAt(e.digits, 0), 308 + kept);
    }
  }

  lemma FirstDigit(d: seq<byte>)
    requires Digits(d)
    ensures Value(d[..1]) == DigitAt(d, 0) <= 9
  {
    assert d[..1][..0] == [];
  }

  /** What the exponent text begins with ends a run of digits, and is no point. */
  lemma ExponentFirst(s: seq<byte>, c: nat, n: Number)
    requires ValidNumber(n) && c <= |s| && s[c..] == ExponentText(n)
    ensures !IsDigit(Peek(s, c)) && Peek(s, c) != DOT
    ensures n.exponent.None? ==> c == |s|
  {
    if n.exponent.Some? {
      assert s[c..][0] == s[c];
    }
  }

  /** The step of `KeepFraction` behind the first `k` fraction digits. */
  lemma KeepStep(n: Number, k: nat)
    requires ValidNumber(n) && k < |FractionDigits(n)|
    ensures IsDigit(Peek(FractionDigits(n), k))
    ensures Significand(n, k + 1) == Significand(n, k) * 10 + DigitAt(FractionDigits(n), k)
    ensures Significant(n, k + 1) == Significant(n, k) + if Significand(n, k + 1) != 0 then 1 else 0
  {
    hide ValidExponent;
    var all := n.digits + FractionDigits(n)[..k + 1];
    assert all[..|all| - 1] == n.digits + FractionDigits(n)[..k];
  }

  /** The digits that the reader keeps are those that are kept. */
  lemma {:induction false} KeepsDigits(n: Number, k: nat)
    requires ValidNumber(n) && n.fraction.Some? && k <= |FractionDigits(n)|
    ensures KeepFraction(FractionDigits(n), k, Significand(n, k), Significant(n, k), k)
         == Fraction(Significand(n, KeptFrom(n, k)), KeptFrom(n, k))
    decreases |FractionDigits(n)| - k
  {
    hide Significand, ValidNumber, Significant;
    if k < |FractionDigits(n)| {
      KeepStep(n, k);
      if !Enough(n, k) {
        KeepsDigits(n, k + 1);
      }
    }
  }

  /** What is read of the fraction. */
  function FractionMeaning(n: Number): Option<Fraction>
    requires ValidNumber(n)
  {
    if n.fraction.None? then None else Some(Fraction(Significand(n, Kept(n)), Kept(n)))
  }

  lemma FitsIs(n: Number)
    requires ValidNumber(n)
    ensures Fits(n) == IntegerEvent(n.minus, Value(n.digits)).Some?
    ensures Significand(n, 0) == Value(n.digits)
    ensures n.fraction.None? ==> Kept(n) == 0
  {
    assert n.digits + FractionDigits(n)[..0] == n.digits;
  }

  /** A point and digits are read as what is kept of them. */
  lemma PointReads(s: seq<byte>, b: nat, n: Number)
    requires ValidNumber(n) && n.fraction.Some? && b < |s| && s[b] == 0x2E && DigitWindow(s, b + 1, n.fraction.value)
    ensures ScanFraction(s, b, n.minus, Value(n.digits), |n.digits|)
         == Lexed(FractionMeaning(n), b + 1 + |n.fraction.value|)
  {
    hide KeepFraction, IntegerEvent, DigitsEnd, Decimal, Significand, Fits, KeptFrom, Value, ValidNumber, DigitWindow;
    FractionIsDigits(n);
    FitsIs(n);
    DigitsRead(s, b + 1, n.fraction.value);
    KeepFractionMoves(s, b + 1, n.fraction.value, 0, Value(n.digits), |n.digits| - 1, 0);
    KeepsDigits(n, 0);
  }

  lemma FractionReads(s: seq<byte>, b: nat, n: Number)
    requires ValidNumber(n) && b <= |s| && s[b..] == FractionText(n) + ExponentText(n)
    ensures ScanFraction(s, b, n.minus, Value(n.digits), |n.digits|)
         == Lexed(FractionMeaning(n), b + |FractionText(n)|)
    ensures s[b + |FractionText(n)|..] == ExponentText(n)
  {
    hide KeepFraction, IntegerEvent, DigitsEnd, ExponentText, Value, ValidNumber, Kept, Significand;
    FractionIsDigits(n);
    var c := b + |FractionText(n)|;
    assert s[c..] == s[b..][|FractionText(n)|..];
    ExponentFirst(s, c, n);
    if n.fraction.Some? {
      assert s[b..c] == s[b..][..|FractionText(n)|];
      Utf8.AtSplit(s, b, [0x2E], n.fraction.value);
      Utf8.AtPeek(s, b, [0x2E]);
      assert Peek(s, b + 0) == 0x2E;
      PointReads(s, b, n);
    }
  }

  lemma FractionIsDigits(n: Number)
    requires ValidNumber(n)
    ensures Digits(n.digits) && (n.fraction.Some? ==> Digits(n.fraction.value))
  {
  }

  /** The exponent is read to the end of the text, or refused. */
  predicate ExponentOutcome(n: Number, t: seq<byte>, c: nat)
    requires ValidNumber(n) && c <= |t|
  {
    var r := ScanExponent(t, c, Kept(n), 0);
    r == if n.exponent.Some? && n.exponent.value.sign != [0x2D] && Value(n.exponent.value.digits) > 308 + Kept(n)
        then Bad(NumberTooBig, 0)
        else Lexed(if n.exponent.Some? then Some(WrittenExponent(n)) else None, |t|)
  }

  lemma ExponentStage(n: Number, t: seq<byte>, c: nat)
    requires ValidNumber(n) && c <= |t| && t[c..] == ExponentText(n)
    ensures ExponentOutcome(n, t, c)
  {
    hide ScanExponent, Kept, Value, ValidExponent, Digits, Saturated;
    if n.exponent.Some? {
      ExponentReads(t, c, n.exponent.value, Kept(n), 0);
    } else {
      NoExponent(t, c, Kept(n));
    }
  }

  /** What is read of the number: its event, or that it is too big. */
  function NumberOutcome(n: Number, f: Flags): Lexed<Event>
    requires ValidNumber(n)
  {
    if TooBig(n, f) then Bad(NumberTooBig, 0) else Lexed(NumberMeaning(n), |NumberText(n)|)
  }

  lemma RestReads(n: Number, f: Flags, b: nat)
    requires ValidNumber(n) && b == (if n.minus then 1 else 0) + |n.digits| && b <= |NumberText(n)|
    requires NumberText(n)[b..] == FractionText(n) + ExponentText(n)
    ensures ScanRest(NumberText(n), 0, n.minus, Value(n.digits), |n.digits|, b, f) == NumberOutcome(n, f)
  {
    hide ScanFraction, ScanRest, ExponentOutcome, FractionMeaning, FractionText, ExponentText, NumberText, Value;
    hide ValidNumber, NumberOutcome;
    NumberDigits(n);
    var t := NumberText(n);
    FractionReads(t, b, n);
    ExponentStage(n, t, b + |FractionText(n)|);
    RestDelivers(n, f, b);
  }

  /** The event, or the refusal, once fraction and exponent are known to be read. */
  lemma RestDelivers(n: Number, f: Flags, b: nat)
    requires ValidNumber(n) && 0 < b <= |NumberText(n)|
    requires var t := NumberText(n); var c := b + |FractionText(n)|;
             && c <= |t| && ScanFraction(t, b, n.minus, Value(n.digits), |n.digits|) == Lexed(FractionMeaning(n), c)
             && ExponentOutcome(n, t, c)
    ensures ScanRest(NumberText(n), 0, n.minus, Value(n.digits), |n.digits|, b, f) == NumberOutcome(n, f)
  {
    hide ScanFraction, ScanExponent, Decimal, Kept, Saturated, FractionText, NumberText, Value, Significand;
    hide ValidNumber;
    NumberDigits(n);
    FitsIs(n);
    var t := NumberText(n);
    assert t[0..|t|] == t;
  }

  lemma NoExponent(s: seq<byte>, c: nat, kept: nat)
    requires c == |s|
    ensures ScanExponent(s, c, kept, 0) == Lexed(None, c)
  {
  }

  lemma NumberParts(n: Number)
    requires ValidNumber(n)
    ensures var t := NumberText(n); var a := if n.minus then 1 else 0; var b := a + |n.digits|;
            && b <= |t| && Utf8.At(t, a, n.digits) && t[b..] == FractionText(n) + ExponentText(n)
            && (n.minus ==> t[0] == MINUS)
  {
    hide FractionText, ExponentText, ValidExponent;
    var t, sign: seq<byte> := NumberText(n), if n.minus then [0x2D] else [];
    var rest := FractionText(n) + ExponentText(n);
    assert t == sign + (n.digits + rest);
    assert Utf8.At(t, 0, sign + (n.digits + rest));
    Utf8.AtSplit(t, 0, sign, n.digits + rest);
    Utf8.AtSplit(t, |sign|, n.digits, rest);
  }

  lemma DigitsFollowed(n: Number)
    requires ValidNumber(n)
    ensures var t := NumberText(n); var a := if n.minus then 1 else 0; DigitWindow(t, a, n.digits)
  {
    hide ValidExponent;
    NumberParts(n);
    var t := NumberText(n);
    var b := (if n.minus then 1 else 0) + |n.digits|;
    if n.fraction.Some? {
      assert t[b..][0] == t[b];
    } else {
      assert t[b..] == ExponentText(n);
      ExponentFirst(t, b, n);
    }
  }

  /**
   * Every number of the grammar is read to its end, and delivered as what it means, or refused because
   * it is too big.
   */
  lemma NumberReads(n: Number, f: Flags)
    requires ValidNumber(n)
    ensures ScanNumber(NumberText(n), 0, f)
         == if TooBig(n, f) then Bad(NumberTooBig, 0) else Lexed(NumberMeaning(n), |NumberText(n)|)
  {
    hide ScanRest, Decimal, DigitsEnd, NumberText, TooBig, NumberMeaning, ValidNumber, Value;
    var a := if n.minus then 1 else 0;
    NumberParts(n);
    DigitsFollowed(n);
    NumberDigits(n);
    DigitsRead(NumberText(n), a, n.digits);
    RestReads(n, f, a + |n.digits|);
  }

  lemma NumberDigits(n: Number)
    requires ValidNumber(n)
    ensures Digits(n.digits) && n.digits != [] && (n.digits[0] == ZERO ==> |n.digits| == 1)
  {
  }

  lemma DigitsPart(s: seq<byte>, a: nat, b: nat)
    requires a < b <= |s| && forall k | a <= k < b :: IsDigit(Peek(s, k))
    ensures Digits(s[a..b])
  {
    forall k | 0 <= k < b - a ensures IsDigit(s[a..b][k]) {
      assert s[a..b][k] == Peek(s, a + k);
    }
  }

  lemma ExponentRead(s: seq<byte>, c: nat, kept: nat, start: nat) returns (e: Exponent)
    requires c < |s| && ScanExponent(s, c, kept, start).Lexed? && ScanExponent(s, c, kept, start).next == |s|
    ensures ValidExponent(e) && s[c..] == [e.letter] + e.sign + e.digits
  {
    hide ExponentUp, ExponentDown, Digits;
    var signed := Peek(s, c + 1) == PLUS || Peek(s, c + 1) == MINUS;
    var j := if signed then c + 2 else c + 1;
    DigitsPart(s, j, |s|);
    assert s[j..|s|] == s[j..];
    e := Exponent(s[c], s[c + 1..j], s[j..]);
    assert signed ==> s[c + 1..j] == [s[c + 1]];
    assert s[c..] == [s[c]] + s[c + 1..j] + s[j..];
  }

  lemma FractionRead(s: seq<byte>, b: nat, negative: bool, n: nat, digits: nat)
    requires b <= |s| && digits > 0 && ScanFraction(s, b, negative, n, digits).Lexed?
    ensures var c := ScanFraction(s, b, negative, n, digits).next;
            c > b ==> c > b + 1 && s[b..c] == [0x2E] + s[b + 1..c] && Digits(s[b + 1..c])
  {
    hide KeepFraction, IntegerEvent, Digits;
    var c := ScanFraction(s, b, negative, n, digits).next;
    if c > b {
      DigitsPart(s, b + 1, c);
    }
  }

  /** A text that is read as a number to its end is one of the grammar. */
  lemma NumberRead(t: seq<byte>, f: Flags) returns (n: Number)
    requires ScanNumber(t, 0, f).Lexed? && ScanNumber(t, 0, f).next == |t|
    ensures ValidNumber(n) && NumberText(n) == t
  {
    hide Decimal, ScanFraction, ScanExponent, IntegerEvent, Digits;
    var minus := Peek(t, 0) == MINUS;
    var a := if minus then 1 else 0;
    var b := if Peek(t, a) == ZERO then a + 1 else DigitsEnd(t, a);
    var fraction := ScanFraction(t, b, minus, Decimal(t, a, b), b - a);
    var c := fraction.next;
    DigitsPart(t, a, b);
    FractionRead(t, b, minus, Decimal(t, a, b), b - a);
    n := Number(minus, t[a..b], if c > b then Some(t[b + 1..c]) else None, None);
    if c < |t| {
      var e := ExponentRead(t, c, if fraction.value.Some? then fraction.value.value.kept else 0, 0);
      n := n.(exponent := Some(e));
    }
    NumberAssembled(t, n, a, b, c);
  }

  lemma NumberAssembled(t: seq<byte>, n: Number, a: nat, b: nat, c: nat)
    requires a == (if n.minus then 1 else 0) && a <= b <= c <= |t| && (n.minus ==> t[0] == MINUS)
    requires n.digits == t[a..b] && FractionText(n) == t[b..c] && ExponentText(n) == t[c..]
    ensures NumberText(n) == t
  {
    assert t == t[..a] + t[a..b] + t[b..c] + t[c..];
    assert n.minus ==> t[..a] == [0x2D];
  }

  /**
   * A text is read as a number to its end exactly when it is one of the grammar and not too big: an
   * optional minus, digits without a leading zero, an optional fraction and an optional exponent. It is
   * delivered as what it means.
   */
  lemma NumberGrammar(t: seq<byte>, f: Flags)
    ensures ScanNumber(t, 0, f).Lexed? && ScanNumber(t, 0, f).next == |t|
            <==> exists n: Number :: ValidNumber(n) && NumberText(n) == t && !TooBig(n, f)
    ensures forall n: Number :: ValidNumber(n) && NumberText(n) == t && !TooBig(n, f) ==>
              ScanNumber(t, 0, f) == Lexed(NumberMeaning(n), |t|)
  {
    hide ScanNumber, TooBig, ValidNumber, NumberText, NumberMeaning;
    if ScanNumber(t, 0, f).Lexed? && ScanNumber(t, 0, f).next == |t| {
      var n := NumberRead(t, f);
      NumberReads(n, f);
    }
    forall n: Number | ValidNumber(n) && NumberText(n) == t && !TooBig(n, f)
      ensures ScanNumber(t, 0, f) == Lexed(NumberMeaning(n), |t|)
    {
      NumberReads(n, f);
    }
  }

  /* ----- what is no number ----- */

  predicate NoDigit(s: seq<byte>, i: nat) { !(0x30 <= Peek(s, i) <= 0x39) }

  /** The sign and the digits of a number stand at `i`, and no more digits follow. */
  predicate IntegerAt(s: seq<byte>, i: nat, minus: bool, digits: seq<byte>) {
    && Digits(digits) && (|digits| > 1 ==> digits[0] != 0x30)
    && if minus then Peek(s, i) == 0x2D && DigitWindow(s, i + 1, digits) else DigitWindow(s, i, digits)
  }

  lemma IntegerReads(s: seq<byte>, i: nat, minus: bool, digits: seq<byte>, f: Flags)
    requires IntegerAt(s, i, minus, digits)
    ensures var b := i + (if minus then 1 else 0) + |digits|;
            && b <= |s| && ScanNumber(s, i, f) == ScanRest(s, i, minus, Value(digits), |digits|, b, f)
  {
    hide ScanRest, Decimal, DigitsEnd, Value;
    DigitsRead(s, if minus then i + 1 else i, digits);
  }

  lemma FractionEnds(s: seq<byte>, b: nat, minus: bool, n: nat, digits: nat, fraction: Option<seq<byte>>)
    requires b <= |s| && digits > 0
    requires if fraction.None? then Peek(s, b) != 0x2E
        else Digits(fraction.value) && Peek(s, b) == 0x2E && DigitWindow(s, b + 1, fraction.value)
    ensures var r := ScanFraction(s, b, minus, n, digits);
            r.Lexed? && r.next == b + if fraction.None? then 0 else 1 + |fraction.value|
  {
    hide KeepFraction, IntegerEvent, DigitsEnd;
    if fraction.Some? {
      DigitsRead(s, b + 1, fraction.value);
    }
  }

  /** A number that needs digits behind a point, or in an exponent, is refused just there. */
  lemma NumberMisses(s: seq<byte>, i: nat, minus: bool, digits: seq<byte>, fraction: Option<seq<byte>>, f: Flags)
    requires IntegerAt(s, i, minus, digits)
    requires var b := i + (if minus then 1 else 0) + |digits|;
             if fraction.None? then Peek(s, b) != 0x2E || NoDigit(s, b + 1)
             else Digits(fraction.value) && Peek(s, b) == 0x2E && DigitWindow(s, b + 1, fraction.value)
    ensures var b := i + (if minus then 1 else 0) + |digits|;
            var c := b + if fraction.None? then 0 else 1 + |fraction.value|;
            var d := if Peek(s, c + 1) in {0x2B, 0x2D} then c + 2 else c + 1;
            if fraction.None? && Peek(s, b) == 0x2E then ScanNumber(s, i, f) == Bad(NumberMissFraction, b + 1)
            else Peek(s, c) in {0x65, 0x45} && NoDigit(s, d) ==> ScanNumber(s, i, f) == Bad(NumberMissExponent, d)
  {
    hide ScanNumber, Value, KeepFraction, IntegerEvent, DigitsEnd, DigitWindow;
    IntegerReads(s, i, minus, digits, f);
    var b := i + (if minus then 1 else 0) + |digits|;
    if fraction.Some? || Peek(s, b) != 0x2E {
      FractionEnds(s, b, minus, Value(digits), |digits|, fraction);
    }
  }

  /** Where no digit stands behind the sign, there is no number. */
  lemma NoNumber(s: seq<byte>, i: nat, f: Flags)
    requires i <= |s|
    ensures var a := if Peek(s, i) == 0x2D then i + 1 else i;
            NoDigit(s, a) <==> ScanNumber(s, i, f) == Bad(ValueInvalid, a)
  {
    hide KeepFraction, ExponentUp, ExponentDown, IntegerEvent, Decimal, DigitsEnd;
  }
}
