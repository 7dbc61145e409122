/**
 * The UTF-8 codec of rapidjson: an encoder, and a decoder and a validator that
 * share one byte classification. Streams are byte sequences with a cursor.
 */
module Utf8 {
  import opened Bytes

  /** A Unicode scalar value: a code point that is not a surrogate. */
  predicate IsScalar(cp: int) {
    0 <= cp < 0xD800 || 0xE000 <= cp <= 0x10FFFF
  }

  type Scalar = cp: int | 0 <= cp < 0xD800 || 0xE000 <= cp <= 0x10FFFF

  /** The bytes `Encode` puts for a code point; surrogates get three bytes like any other. */
  function Encode(cp: int): (r: seq<byte>)
    requires 0 <= cp <= 0x10FFFF
    ensures 1 <= |r| <= 4
    ensures cp <= 0xFFFF ==> |r| <= 3
  {
    if cp <= 0x7F then [cp]
    else if cp <= 0x7FF then [0xC0 + cp / 64, 0x80 + cp % 64]
    else if cp <= 0xFFFF then [0xE0 + cp / 4096, 0x80 + cp / 64 % 64, 0x80 + cp % 64]
    else [0xF0 + cp / 262144, 0x80 + cp / 4096 % 64, 0x80 + cp / 64 % 64, 0x80 + cp % 64]
  }

  predicate IsTail(b: byte) { 0x80 <= b <= 0xBF }

  function Payload(b: byte, lead: int): int { b - lead }

  /** The bytes of a code point are those of the table in section 3 of RFC 3629, with its bits in them. */
  lemma EncodeIs(cp: int)
    requires 0 <= cp <= 0x10FFFF
    ensures cp < 0x80 ==> Encode(cp) == [cp]
    ensures var r := Encode(cp); 0x80 <= cp < 0x800 ==>
              |r| == 2 && 0xC2 <= r[0] <= 0xDF && IsTail(r[1]) && cp == Payload(r[0], 0xC0) * 0x40 + Payload(r[1], 0x80)
    ensures 0x800 <= cp < 0x1_0000 ==> Is3(cp, Encode(cp))
    ensures 0x1_0000 <= cp ==> Is4(cp, Encode(cp))
  {
    if 0x800 <= cp < 0x1_0000 {
      Encode3Is(cp);
    } else if 0x1_0000 <= cp {
      Encode4Is(cp);
    }
  }

  predicate Is3(cp: int, r: seq<byte>) {
    && |r| == 3 && 0xE0 <= r[0] <= 0xEF && IsTail(r[1]) && IsTail(r[2])
    && cp == Payload(r[0], 0xE0) * 0x1000 + Payload(r[1], 0x80) * 0x40 + Payload(r[2], 0x80)
  }

  predicate Is4(cp: int, r: seq<byte>) {
    && |r| == 4 && 0xF0 <= r[0] <= 0xF4 && IsTail(r[1]) && IsTail(r[2]) && IsTail(r[3])
    && cp == Payload(r[0], 0xF0) * 0x4_0000 + Payload(r[1], 0x80) * 0x1000 + Payload(r[2], 0x80) * 0x40
             + Payload(r[3], 0x80)
  }

  lemma Encode3Is(cp: int)
    requires 0x800 <= cp < 0x1_0000
    ensures Is3(cp, Encode(cp))
  {
    var high := cp / 64;
    assert cp == high * 64 + cp % 64;
    assert high == high / 64 * 64 + high % 64 && high / 64 == cp / 4096;
  }

  lemma Encode4Is(cp: int)
    requires 0x1_0000 <= cp <= 0x10FFFF
    ensures Is4(cp, Encode(cp))
  {
    var a := cp / 64;
    var b := a / 64;
    assert cp == a * 64 + cp % 64 && b == cp / 4096 && b / 64 == cp / 262144;
    assert a == b * 64 + a % 64;
    assert b == b / 64 * 64 + b % 64;
  }

  /** The class of a byte: a lead byte kind below 16, or a continuation kind that masks can test. */
  function GetRange(c: byte): nat {
    if c < 0x80 then 0
    else if c < 0x90 then 0x10
    else if c < 0xA0 then 0x40
    else if c < 0xC0 then 0x20
    else if c < 0xC2 then 8
    else if c < 0xE0 then 2
    else if c == 0xE0 then 10
    else if c < 0xED then 3
    else if c == 0xED then 4
    else if c < 0xF0 then 3
    else if c == 0xF0 then 11
    else if c < 0xF4 then 6
    else if c == 0xF4 then 5
    else 8
  }

  /**
   * The RAPIDJSON_TRANS test of one continuation byte, `(GetRange(c) & mask) != 0`. The masks have
   * bits 4 to 6 only, and a class is either one of these bits or below 16.
   */
  predicate Trans(c: byte, mask: nat) {
    var range := GetRange(c);
    || (range == 0x10 && mask / 0x10 % 2 == 1)
    || (range == 0x20 && mask / 0x20 % 2 == 1)
    || (range == 0x40 && mask / 0x40 % 2 == 1)
  }

  /** The masks that the continuation bytes must pass after a lead byte of the given kind. */
  function Tail(kind: nat): Option<seq<nat>> {
    if kind == 2 then Some([0x70])
    else if kind == 3 then Some([0x70, 0x70])
    else if kind == 4 then Some([0x50, 0x70])
    else if kind == 5 then Some([0x10, 0x70, 0x70])
    else if kind == 6 then Some([0x70, 0x70, 0x70])
    else if kind == 10 then Some([0x20, 0x70])
    else if kind == 11 then Some([0x60, 0x70, 0x70])
    else None
  }

  /** The payload bits of a lead byte, `(0xFF >> kind) & c`, for the kinds that have a tail. */
  function LeadBits(kind: nat, c: byte): nat {
    if kind == 2 then c % 64
    else if kind == 3 then c % 32
    else if kind == 4 then c % 16
    else if kind == 5 then c % 8
    else if kind == 6 then c % 4
    else 0
  }

  /** Outcome of taking one code point: whether it was well formed, its value, and how many bytes were taken. */
  datatype Decoded = Decoded(ok: bool, cp: nat, taken: nat)

  /** Takes one byte per mask; every byte is taken even after one has failed its test. */
  function TakeTail(s: seq<byte>, i: nat, masks: seq<nat>, acc: Decoded): Decoded
    decreases |masks|
  {
    if masks == [] then acc
    else
      var c := Peek(s, i);
      TakeTail(s, i + 1, masks[1..],
               Decoded(acc.ok && Trans(c, masks[0]), acc.cp * 64 + c % 64, acc.taken + 1))
  }

  function Decode(s: seq<byte>, i: nat): Decoded {
    var c := Peek(s, i);
    if c < 0x80 then Decoded(true, c, 1)
    else
      var kind := GetRange(c);
      match Tail(kind)
      case None => Decoded(false, if kind >= 32 then 0 else LeadBits(kind, c), 1)
      case Some(masks) => TakeTail(s, i + 1, masks, Decoded(true, LeadBits(kind, c), 1))
  }

  /** Outcome of validating one code point: the verdict and the bytes copied to the output. */
  datatype Validated = Validated(ok: bool, copied: seq<byte>)

  function CopyTail(s: seq<byte>, i: nat, masks: seq<nat>, acc: Validated): Validated
    decreases |masks|
  {
    if masks == [] then acc
    else
      var c := Peek(s, i);
      CopyTail(s, i + 1, masks[1..], Validated(acc.ok && Trans(c, masks[0]), acc.copied + [c]))
  }

  function Validate(s: seq<byte>, i: nat): Validated {
    var c := Peek(s, i);
    if c < 0x80 then Validated(true, [c])
    else
      match Tail(GetRange(c))
      case None => Validated(false, [c])
      case Some(masks) => CopyTail(s, i + 1, masks, Validated(true, [c]))
  }

  /** Encoding of a whole string. */
  function EncodeAll(cps: seq<Scalar>): seq<byte> {
    if cps == [] then [] else Encode(cps[0]) + EncodeAll(cps[1..])
  }

  /** Repeated validation from position `i` consumes the input exactly. */
  predicate ValidFrom(s: seq<byte>, i: nat)
    decreases |s| - i
  {
    i == |s| ||
    (i < |s| && var v := Validate(s, i); v.ok && |v.copied| > 0 && ValidFrom(s, i + |v.copied|))
  }

  /** The validator takes as many bytes as the decoder, gives the same verdict and copies what it takes. */
  lemma ValidateAgreesWithDecode(s: seq<byte>, i: nat)
    ensures var v, d := Validate(s, i), Decode(s, i);
            && v.ok == d.ok
            && |v.copied| == d.taken
            && 1 <= d.taken <= 4
            && forall k | 0 <= k < |v.copied| :: v.copied[k] == Peek(s, i + k)
  {
    var c := Peek(s, i);
    if c >= 0x80 && Tail(GetRange(c)).Some? {
      TailsAgree(s, i + 1, Tail(GetRange(c)).value,
                 Decoded(true, LeadBits(GetRange(c), c), 1), Validated(true, [c]), i);
    }
  }

  lemma {:induction false} TailsAgree(s: seq<byte>, j: nat, masks: seq<nat>, d: Decoded, v: Validated, i: nat)
    requires v.ok == d.ok && |v.copied| == d.taken && j == i + d.taken
    requires forall k | 0 <= k < |v.copied| :: v.copied[k] == Peek(s, i + k)
    ensures var v', d' := CopyTail(s, j, masks, v), TakeTail(s, j, masks, d);
            && v'.ok == d'.ok
            && |v'.copied| == d'.taken == d.taken + |masks|
            && forall k | 0 <= k < |v'.copied| :: v'.copied[k] == Peek(s, i + k)
    decreases |masks|
  {
    if masks != [] {
      var c := Peek(s, j);
      TailsAgree(s, j + 1, masks[1..],
                 Decoded(d.ok && Trans(c, masks[0]), d.cp * 64 + c % 64, d.taken + 1),
                 Validated(v.ok && Trans(c, masks[0]), v.copied + [c]), i);
    }
  }

  /** `t` stands in `s` at position `i`. */
  predicate At(s: seq<byte>, i: nat, t: seq<byte>) {
    i + |t| <= |s| && s[i..i + |t|] == t
  }

  lemma AtPeek(s: seq<byte>, i: nat, t: seq<byte>)
    requires At(s, i, t)
    ensures forall k | 0 <= k < |t| :: Peek(s, i + k) == t[k]
  {
    forall k | 0 <= k < |t| ensures Peek(s, i + k) == t[k] {
      assert s[i..i + |t|][k] == t[k];
    }
  }

  lemma AtSplit(s: seq<byte>, i: nat, a: seq<byte>, b: seq<byte>)
    requires At(s, i, a + b)
    ensures At(s, i, a) && At(s, i + |a|, b)
  {
    assert s[i..i + |a|] == s[i..i + |a + b|][..|a|];
    assert s[i + |a|..i + |a + b|] == s[i..i + |a + b|][|a|..];
  }

  lemma AtJoin(s: seq<byte>, i: nat, a: seq<byte>, b: seq<byte>)
    requires At(s, i, a) && At(s, i + |a|, b)
    ensures At(s, i, a + b)
  {
    assert s[i..i + |a + b|] == s[i..i + |a|] + s[i + |a|..i + |a| + |b|];
  }

  predicate Within(b: byte, lo: byte, hi: byte) {
    lo <= b < hi
  }

  /** What each mask lets through. */
  lemma TransRange(b: byte)
    ensures Trans(b, 0x70) <==> Within(b, 0x80, 0xC0)
    ensures Trans(b, 0x50) <==> Within(b, 0x80, 0xA0)
    ensures Trans(b, 0x10) <==> Within(b, 0x80, 0x90)
    ensures Trans(b, 0x20) <==> Within(b, 0xA0, 0xC0)
    ensures Trans(b, 0x60) <==> Within(b, 0x90, 0xC0)
  {
  }

  lemma TakeTail1(s: seq<byte>, i: nat, m: nat, d: Decoded)
    ensures TakeTail(s, i, [m], d) ==
            Decoded(d.ok && Trans(Peek(s, i), m), d.cp * 64 + Peek(s, i) % 64, d.taken + 1)
  {
    assert [m][1..] == [];
  }

  lemma TakeTail2(s: seq<byte>, i: nat, m1: nat, m2: nat, d: Decoded)
    ensures TakeTail(s, i, [m1, m2], d) ==
            Decoded(d.ok && Trans(Peek(s, i), m1) && Trans(Peek(s, i + 1), m2),
                    (d.cp * 64 + Peek(s, i) % 64) * 64 + Peek(s, i + 1) % 64, d.taken + 2)
  {
    assert [m1, m2][1..] == [m2];
    TakeTail1(s, i + 1, m2, Decoded(d.ok && Trans(Peek(s, i), m1), d.cp * 64 + Peek(s, i) % 64, d.taken + 1));
  }

  lemma TakeTail3(s: seq<byte>, i: nat, m1: nat, m2: nat, m3: nat, d: Decoded)
    ensures TakeTail(s, i, [m1, m2, m3], d) ==
            Decoded(d.ok && Trans(Peek(s, i), m1) && Trans(Peek(s, i + 1), m2) && Trans(Peek(s, i + 2), m3),
                    ((d.cp * 64 + Peek(s, i) % 64) * 64 + Peek(s, i + 1) % 64) * 64 + Peek(s, i + 2) % 64, d.taken + 3)
  {
    assert [m1, m2, m3][1..] == [m2, m3];
    TakeTail2(s, i + 1, m2, m3, Decoded(d.ok && Trans(Peek(s, i), m1), d.cp * 64 + Peek(s, i) % 64, d.taken + 1));
  }

  /** Decoding after a lead byte of a two-byte sequence. */
  lemma Decode2(s: seq<byte>, i: nat)
    requires Within(Peek(s, i), 0xC2, 0xE0)
    ensures var c, b := Peek(s, i), Peek(s, i + 1);
            Decode(s, i) == Decoded(Within(b, 0x80, 0xC0), (c - 0xC0) * 64 + b % 64, 2)
  {
    TakeTail1(s, i + 1, 0x70, Decoded(true, Peek(s, i) - 0xC0, 1));
    TransRange(Peek(s, i + 1));
  }

  /** The interval the second byte must lie in after a given lead byte. */
  function SecondLow(c: byte): byte {
    if c == 0xE0 then 0xA0 else if c == 0xF0 then 0x90 else 0x80
  }

  function SecondHigh(c: byte): byte {
    if c == 0xED then 0xA0 else if c == 0xF4 then 0x90 else 0xC0
  }

  /** Decoding after a lead byte of a three-byte sequence. */
  lemma Decode3(s: seq<byte>, i: nat)
    requires Within(Peek(s, i), 0xE0, 0xF0)
    ensures var c, b1, b2 := Peek(s, i), Peek(s, i + 1), Peek(s, i + 2);
            Decode(s, i) == Decoded(Within(b1, SecondLow(c), SecondHigh(c)) && Within(b2, 0x80, 0xC0),
                                    ((c - 0xE0) * 64 + b1 % 64) * 64 + b2 % 64, 3)
  {
    var c := Peek(s, i);
    var m := if c == 0xE0 then 0x20 else if c == 0xED then 0x50 else 0x70;
    assert Tail(GetRange(c)) == Some([m, 0x70]);
    TakeTail2(s, i + 1, m, 0x70, Decoded(true, c - 0xE0, 1));
    TransRange(Peek(s, i + 1));
    TransRange(Peek(s, i + 2));
  }

  /** Decoding after a lead byte of a four-byte sequence. */
  lemma Decode4(s: seq<byte>, i: nat)
    requires Within(Peek(s, i), 0xF0, 0xF5)
    ensures var c, b1, b2, b3 := Peek(s, i), Peek(s, i + 1), Peek(s, i + 2), Peek(s, i + 3);
            Decode(s, i) == Decoded(&& Within(b1, SecondLow(c), SecondHigh(c))
                                    && Within(b2, 0x80, 0xC0) && Within(b3, 0x80, 0xC0),
                                    (((c - 0xF0) * 64 + b1 % 64) * 64 + b2 % 64) * 64 + b3 % 64, 4)
  {
    var c := Peek(s, i);
    var m := if c == 0xF0 then 0x60 else if c == 0xF4 then 0x10 else 0x70;
    assert Tail(GetRange(c)) == Some([m, 0x70, 0x70]);
    TakeTail3(s, i + 1, m, 0x70, 0x70, Decoded(true, c - 0xF0, 1));
    TransRange(Peek(s, i + 1));
    TransRange(Peek(s, i + 2));
    TransRange(Peek(s, i + 3));
  }

  /** Digits of a code point in radix 64, and the bytes they are encoded by. */
  lemma EncodeRadix3(a: nat, b: nat, c: nat)
    requires a < 16 && b < 64 && c < 64 && (a == 0 ==> b >= 32)
    ensures var cp := (a * 64 + b) * 64 + c;
            0x800 <= cp <= 0xFFFF && Encode(cp) == [0xE0 + a, 0x80 + b, 0x80 + c]
  {
    var cp := (a * 64 + b) * 64 + c;
    assert cp / 64 == a * 64 + b && cp / 4096 == a;
  }

  lemma EncodeRadix4(a: nat, b: nat, c: nat, d: nat)
    requires a < 5 && b < 64 && c < 64 && d < 64 && (a == 0 ==> b >= 16) && (a == 4 ==> b < 16)
    ensures var cp := ((a * 64 + b) * 64 + c) * 64 + d;
            0x10000 <= cp <= 0x10FFFF && Encode(cp) == [0xF0 + a, 0x80 + b, 0x80 + c, 0x80 + d]
  {
    var cp := ((a * 64 + b) * 64 + c) * 64 + d;
    assert cp / 64 == (a * 64 + b) * 64 + c && cp / 4096 == a * 64 + b && cp / 262144 == a;
  }

  /** Decoding inverts encoding, for every scalar and wherever its encoding stands. */
  lemma DecodeEncode(s: seq<byte>, i: nat, cp: Scalar)
    requires At(s, i, Encode(cp))
    ensures Decode(s, i) == Decoded(true, cp, |Encode(cp)|)
  {
    var e := Encode(cp);
    AtPeek(s, i, e);
    assert Peek(s, i + 0) == e[0];
    if cp > 0xFFFF {
      assert Peek(s, i + 1) == e[1] && Peek(s, i + 2) == e[2] && Peek(s, i + 3) == e[3];
      DecodeEncode4(s, i, cp);
    } else if cp > 0x7FF {
      assert Peek(s, i + 1) == e[1] && Peek(s, i + 2) == e[2];
      DecodeEncode3(s, i, cp);
    } else if cp > 0x7F {
      assert Peek(s, i + 1) == e[1];
      Decode2(s, i);
    }
  }

  lemma DecodeEncode3(s: seq<byte>, i: nat, cp: Scalar)
    requires 0x800 <= cp <= 0xFFFF
    requires Peek(s, i) == 0xE0 + cp / 4096
    requires Peek(s, i + 1) == 0x80 + cp / 64 % 64 && Peek(s, i + 2) == 0x80 + cp % 64
    ensures Decode(s, i) == Decoded(true, cp, 3)
  {
    var a, b, c := cp / 4096, cp / 64 % 64, cp % 64;
    assert cp / 64 / 64 == a;
    assert cp == (a * 64 + b) * 64 + c;
    assert a == 0 ==> b >= 32;
    assert a == 13 ==> b < 32;
    Decode3(s, i);
  }

  lemma DecodeEncode4(s: seq<byte>, i: nat, cp: Scalar)
    requires 0x10000 <= cp
    requires Peek(s, i) == 0xF0 + cp / 262144 && Peek(s, i + 1) == 0x80 + cp / 4096 % 64
    requires Peek(s, i + 2) == 0x80 + cp / 64 % 64 && Peek(s, i + 3) == 0x80 + cp % 64
    ensures Decode(s, i) == Decoded(true, cp, 4)
  {
    hide Decode;
    Digits4(cp);
    Decode4(s, i);
  }

  /** The radix-64 digits of a supplementary code point, and the bounds its encoding relies on. */
  lemma Digits4(cp: Scalar)
    requires 0x10000 <= cp
    ensures ((cp / 262144 * 64 + cp / 4096 % 64) * 64 + cp / 64 % 64) * 64 + cp % 64 == cp
    ensures cp / 262144 <= 4
    ensures cp / 262144 == 0 ==> cp / 4096 % 64 >= 16
    ensures cp / 262144 == 4 ==> cp / 4096 % 64 < 16
  {
    assert cp / 64 / 64 == cp / 4096 && cp / 4096 / 64 == cp / 262144;
  }

  /** The bytes taken at `i` are exactly the encoding of the scalar they decode to. */
  predicate Faithful(s: seq<byte>, i: nat, d: Decoded) {
    IsScalar(d.cp) && At(s, i, Encode(d.cp)) && |Encode(d.cp)| == d.taken
  }

  /** What the decoder accepts is a scalar, and the bytes it took are that scalar's encoding. */
  lemma EncodeDecode(s: seq<byte>, i: nat)
    requires Decode(s, i).ok && i < |s|
    ensures Faithful(s, i, Decode(s, i))
  {
    var c := Peek(s, i);
    if c < 0x80 {
      assert s[i..i + 1] == [c];
    } else if Within(c, 0xC2, 0xE0) {
      EncodeDecode2(s, i);
    } else if Within(c, 0xE0, 0xF0) {
      EncodeDecode3(s, i);
    } else {
      assert Within(c, 0xF0, 0xF5);
      EncodeDecode4(s, i);
    }
  }

  lemma EncodeDecode2(s: seq<byte>, i: nat)
    requires Decode(s, i).ok && i < |s| && Within(Peek(s, i), 0xC2, 0xE0)
    ensures Faithful(s, i, Decode(s, i))
  {
    var b := Peek(s, i + 1);
    Decode2(s, i);
    assert b % 64 == b - 0x80;
    assert s[i..i + 2] == [s[i], b];
  }

  lemma EncodeDecode3(s: seq<byte>, i: nat)
    requires Decode(s, i).ok && i < |s| && Within(Peek(s, i), 0xE0, 0xF0)
    ensures Faithful(s, i, Decode(s, i))
  {
    Decode3(s, i);
    Faithful3(s, i, Peek(s, i), Peek(s, i + 1), Peek(s, i + 2));
  }

  lemma Faithful3(s: seq<byte>, i: nat, c: byte, b1: byte, b2: byte)
    requires i < |s| && c == Peek(s, i) && b1 == Peek(s, i + 1) && b2 == Peek(s, i + 2)
    requires Within(c, 0xE0, 0xF0) && Within(b1, SecondLow(c), SecondHigh(c)) && Within(b2, 0x80, 0xC0)
    ensures Faithful(s, i, Decoded(true, ((c - 0xE0) * 64 + b1 % 64) * 64 + b2 % 64, 3))
  {
    assert b1 % 64 == b1 - 0x80 && b2 % 64 == b2 - 0x80;
    EncodeRadix3(c - 0xE0, b1 - 0x80, b2 - 0x80);
    assert s[i..i + 3] == [c, b1, b2];
  }

  lemma EncodeDecode4(s: seq<byte>, i: nat)
    requires Decode(s, i).ok && i < |s| && Within(Peek(s, i), 0xF0, 0xF5)
    ensures Faithful(s, i, Decode(s, i))
  {
    Decode4(s, i);
    Faithful4(s, i, Peek(s, i), Peek(s, i + 1), Peek(s, i + 2), Peek(s, i + 3));
  }

  lemma LowSix(b: byte)
    requires 0x80 <= b < 0xC0
    ensures b % 64 == b - 0x80
  {
  }

  lemma Faithful4(s: seq<byte>, i: nat, c: byte, b1: byte, b2: byte, b3: byte)
    requires i < |s| && c == Peek(s, i) && b1 == Peek(s, i + 1) && b2 == Peek(s, i + 2) && b3 == Peek(s, i + 3)
    requires Within(c, 0xF0, 0xF5) && Within(b1, SecondLow(c), SecondHigh(c))
    requires Within(b2, 0x80, 0xC0) && Within(b3, 0x80, 0xC0)
    ensures Faithful(s, i, Decoded(true, (((c - 0xF0) * 64 + b1 % 64) * 64 + b2 % 64) * 64 + b3 % 64, 4))
  {
    LowSix(b1);
    LowSix(b2);
    LowSix(b3);
    EncodeRadix4(c - 0xF0, b1 - 0x80, b2 - 0x80, b3 - 0x80);
    assert s[i..i + 4] == [c, b1, b2, b3];
  }

  /** Where a scalar's encoding stands, validation accepts it and copies it. */
  lemma ValidateEncoded(s: seq<byte>, i: nat, cp: Scalar)
    requires At(s, i, Encode(cp))
    ensures Validate(s, i).ok && |Validate(s, i).copied| == |Encode(cp)|
  {
    DecodeEncode(s, i, cp);
    ValidateAgreesWithDecode(s, i);
  }

  /** What validation accepts and copies is the encoding of a scalar. */
  lemma ValidatedScalar(s: seq<byte>, i: nat) returns (cp: Scalar)
    requires i < |s| && Validate(s, i).ok
    ensures At(s, i, Encode(cp)) && |Validate(s, i).copied| == |Encode(cp)|
  {
    ValidateAgreesWithDecode(s, i);
    EncodeDecode(s, i);
    cp := Decode(s, i).cp;
  }

  /** Every encoded string validates. */
  lemma {:induction false} EncodedIsValid(s: seq<byte>, i: nat, cps: seq<Scalar>)
    requires i <= |s| && s[i..] == EncodeAll(cps)
    ensures ValidFrom(s, i)
    decreases |cps|
  {
    hide Validate, Encode;
    if cps != [] {
      var e := Encode(cps[0]);
      assert s[i..i + |e|] == s[i..][..|e|] == e;
      ValidateEncoded(s, i, cps[0]);
      assert s[i + |e|..] == s[i..][|e|..] == EncodeAll(cps[1..]);
      EncodedIsValid(s, i + |e|, cps[1..]);
    }
  }

  /** A valid string is the encoding of the scalars that validation accepts one by one. */
  lemma {:induction false} ValidIsEncoded(s: seq<byte>, i: nat) returns (cps: seq<Scalar>)
    requires ValidFrom(s, i)
    ensures i <= |s| && EncodeAll(cps) == s[i..]
    decreases |s| - i
  {
    hide Validate, Encode;
    if i == |s| {
      cps := [];
    } else {
      var cp := ValidatedScalar(s, i);
      var rest := ValidIsEncoded(s, i + |Encode(cp)|);
      cps := [cp] + rest;
      assert s[i..] == s[i..i + |Encode(cp)|] + s[i + |Encode(cp)|..];
    }
  }

  /** Two strings of scalars with the same encoding are equal. */
  lemma {:induction false} EncodeAllInjective(a: seq<Scalar>, b: seq<Scalar>)
    requires EncodeAll(a) == EncodeAll(b)
    ensures a == b
  {
    if a == [] || b == [] {
      assert a == b;
    } else {
      var s := EncodeAll(a);
      assert s[0..|Encode(a[0])|] == Encode(a[0]) && s[0..|Encode(b[0])|] == Encode(b[0]);
      DecodeEncode(s, 0, a[0]);
      DecodeEncode(s, 0, b[0]);
      assert EncodeAll(a[1..]) == s[|Encode(a[0])|..] == EncodeAll(b[1..]);
      EncodeAllInjective(a[1..], b[1..]);
      assert a == [a[0]] + a[1..] && b == [b[0]] + b[1..];
    }
  }

  /** A byte string is the encoding of some scalar sequence. */
  ghost predicate IsEncoding(s: seq<byte>) {
    exists cps: seq<Scalar> :: EncodeAll(cps) == s
  }

  /** A byte string validates exactly when it is the encoding of a scalar sequence. */
  lemma ValidIffEncoded(s: seq<byte>)
    ensures ValidFrom(s, 0) <==> IsEncoding(s)
  {
    assert s[0..] == s;
    if ValidFrom(s, 0) {
      var cps := ValidIsEncoded(s, 0);
      assert EncodeAll(cps) == s;
    }
    if IsEncoding(s) {
      var cps: seq<Scalar> :| EncodeAll(cps) == s;
      EncodedIsValid(s, 0, cps);
    }
  }
}
