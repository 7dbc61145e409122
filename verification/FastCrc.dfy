/**
 * The software CRCs of FastCRC: slicing-by-4 over aligned words, with single bytes before and after,
 * against the shift register of `CrcRegister`.
 */
module FastCrc {
  import opened CrcRegister
  import Bytes

  /* ----- four bytes at a time ----- */

  /** Up to four bytes as the processor loads them, the first in the low bits. */
  function Word(data: seq<bv8>): Reg
    decreases |data|
  {
    if data == [] then ZERO else Xor(Wide(data[0]), Shl8(Word(data[1..])))
  }

  /** The sliced step of four bytes on a 32-bit register, `crc_n4d`. */
  function SliceStep(kind: Kind, s: Reg, data: Reg): Reg {
    var x := Xor(s, data);
    Xor(Xor(Table(kind, 3, Low(x)), Table(kind, 2, Low(Shr8(x)))),
        Xor(Table(kind, 1, Low(Shr8(Shr8(x)))), Table(kind, 0, Low(Shr8(Shr8(Shr8(x)))))))
  }

  /** The sliced step of four bytes on a 16-bit register, `crc_n4`. */
  function SliceStep16(kind: Kind, s: Reg, data: Reg): Reg {
    var x := ((s ^ data) & 0xffff);
    Xor(Xor(Table(kind, 3, Low(x)), Table(kind, 2, Low(Shr8(x)))),
        Xor(Table(kind, 1, Low(Shr8(Shr8(data)))), Table(kind, 0, Shr8(Shr8(Shr8(data))))))
  }

  /** The step of four bytes with the first table only, `crcsm_n4d`. */
  function SmallStep(kind: Kind, s: Reg, data: Reg): Reg {
    Shift8(kind, Shift8(kind, Shift8(kind, Shift8(kind, Xor(s, data)))))
  }

  /** Shifting by `n` bytes of zeros. */
  function Shift8s(kind: Kind, s: Reg, n: nat): Reg
    decreases n
  {
    if n == 0 then s else Shift8s(kind, Shift8(kind, s), n - 1)
  }

  lemma {:induction false} Shift8sLinear(kind: Kind, s: Reg, t: Reg, n: nat)
    ensures Shift8s(kind, Xor(s, t), n) == Xor(Shift8s(kind, s, n), Shift8s(kind, t, n))
    decreases n
  {
    hide Xor, Shift8;
    if n > 0 {
      Shift8Linear(kind, s, t);
      Shift8sLinear(kind, Shift8(kind, s), Shift8(kind, t), n - 1);
    }
  }

  lemma Low24(b: bv8, w: Reg)
    requires w >> 16 == 0
    ensures (Wide(b) ^ (w << 8)) >> 24 == 0
  {
  }

  lemma Low16(b: bv8, w: Reg)
    requires w >> 8 == 0
    ensures (Wide(b) ^ (w << 8)) >> 16 == 0
  {
  }

  lemma Low8(b: bv8)
    ensures (Wide(b) ^ (0 << 8)) >> 8 == 0
  {
  }

  predicate Fits(w: Reg, n: nat)
  {
    if n == 0 then w == 0 else if n == 1 then w >> 8 == 0 else if n == 2 then w >> 16 == 0 else Below24(w)
  }

  lemma OneMoreByte(b: bv8, w: Reg, n: nat)
    requires n <= 2 && Fits(w, n)
    ensures Fits(Xor(Wide(b), Shl8(w)), n + 1)
  {
    if n == 0 {
      Low8(b);
    } else if n == 1 {
      Low16(b, w);
    } else {
      Low24(b, w);
    }
  }

  lemma {:induction false} WordFits(data: seq<bv8>)
    requires |data| <= 3
    ensures Fits(Word(data), |data|)
    ensures Below24(Word(data))
    decreases |data|
  {
    if data != [] {
      WordFits(data[1..]);
      OneMoreByte(data[0], Word(data[1..]), |data| - 1);
    }
  }

  /** Up to four bytes one after the other, and the same bytes added to the register at once. */
  lemma {:induction false} BytesAtOnce(kind: Kind, s: Reg, data: seq<bv8>)
    requires |data| <= 4
    ensures Bytewise(kind, s, data) == Shift8s(kind, Xor(s, Word(data)), |data|)
    decreases |data|
  {
    hide Xor, Shl8, Wide, Shift8, ByteStep, Below24, Fits;
    if data == [] {
      XorGroup(s, ZERO, ZERO);
    } else {
      var w := Word(data[1..]);
      WordFits(data[1..]);
      ByteStepShifts(kind, s, data[0]);
      XorGroup(s, Wide(data[0]), Shl8(w));
      Shift8Linear(kind, Xor(s, Wide(data[0])), Shl8(w));
      Shift8Moves(kind, w);
      BytesAtOnce(kind, ByteStep(kind, s, data[0]), data[1..]);
    }
  }

  lemma {:induction false} Shift8sLast(kind: Kind, s: Reg, n: nat)
    ensures Shift8s(kind, s, n + 1) == Shift8(kind, Shift8s(kind, s, n))
    decreases n
  {
    hide Shift8;
    if n > 0 {
      Shift8sLast(kind, Shift8(kind, s), n - 1);
    }
  }

  lemma LowByte(x: Reg)
    ensures Shr8(Low(x)) == ZERO && Low(Low(x)) == Low(x)
  {
  }

  /** Table `k` shifts a byte by `k + 1` bytes of zeros. */
  lemma {:induction false} TableShifts(kind: Kind, k: nat, x: Reg)
    ensures Table(kind, k, Low(x)) == Shift8s(kind, Low(x), k + 1)
    decreases k
  {
    hide Xor, Low, Shr8, T0;
    if k == 0 {
      LowByte(x);
      XorGroup(ZERO, T0(kind, Low(x)), ZERO);
      XorGroup(T0(kind, Low(x)), ZERO, ZERO);
      Shift8sLast(kind, Low(x), 0);
    } else {
      TableShifts(kind, k - 1, x);
      Shift8sLast(kind, Low(x), k);
    }
  }

  /** The low byte by a table, the rest moved down. */
  lemma PeelByte(kind: Kind, x: Reg, n: nat)
    ensures Shift8s(kind, x, n + 1) == Xor(Table(kind, n, Low(x)), Shift8s(kind, Shr8(x), n))
  {
    hide Xor, Low, Shr8, Shl8, Table, Shift8, Below24;
    SplitLow(x);
    var rest := Shl8(Shr8(x));
    Shift8sLinear(kind, rest, Low(x), n + 1);
    TableShifts(kind, n, x);
    Shift8Moves(kind, Shr8(x));
    XorGroup(Shift8s(kind, rest, n + 1), Shift8s(kind, Low(x), n + 1), ZERO);
  }

  lemma Shr8s(x: Reg)
    ensures Shr8(Shr8(Shr8(Shr8(x)))) == ZERO
  {
  }

  /** The sliced step shifts the register by four bytes of zeros after adding the word. */
  lemma SliceStepShifts(kind: Kind, s: Reg, data: Reg)
    ensures SliceStep(kind, s, data) == Shift8s(kind, Xor(s, data), 4)
  {
    hide Xor, Low, Shr8, Table, Shift8;
    var x := Xor(s, data);
    var x1, x2, x3 := Shr8(x), Shr8(Shr8(x)), Shr8(Shr8(Shr8(x)));
    PeelByte(kind, x, 3);
    PeelByte(kind, x1, 2);
    PeelByte(kind, x2, 1);
    PeelByte(kind, x3, 0);
    Shr8s(x);
    var a, b, c, d := Table(kind, 3, Low(x)), Table(kind, 2, Low(x1)), Table(kind, 1, Low(x2)), Table(kind, 0, Low(x3));
    XorGroup(d, ZERO, ZERO);
    XorGroup(a, b, Xor(c, d));
  }

  lemma SmallStepShifts(kind: Kind, s: Reg, data: Reg)
    ensures SmallStep(kind, s, data) == Shift8s(kind, Xor(s, data), 4)
  {
    hide Xor, Shift8;
  }

  lemma Narrow(s: Reg, data: Reg)
    ensures Low((s ^ data) & 0xffff) == Low(Xor(s, data))
  {
  }

  lemma NarrowSecond(s: Reg, data: Reg)
    ensures Low(Shr8((s ^ data) & 0xffff)) == Low(Shr8(Xor(s, data)))
  {
  }

  /** Only the word reaches the high half. */
  lemma HighHalf(s: Reg, data: Reg)
    requires Below16(s)
    ensures Shr8(Shr8(Xor(s, data))) == Shr8(Shr8(data))
  {
    hide Xor, Shr8, Below16;
    NarrowGone(s);
    Shr8Linear(s, data);
    Shr8Linear(Shr8(s), Shr8(data));
    XorGroup(ZERO, Shr8(Shr8(data)), ZERO);
    XorGroup(Shr8(Shr8(data)), ZERO, ZERO);
  }

  lemma NarrowGone(s: Reg)
    requires Below16(s)
    ensures Shr8(Shr8(s)) == ZERO
  {
  }

  lemma TopByte(x: Reg)
    ensures Low(Shr8(Shr8(Shr8(x)))) == Shr8(Shr8(Shr8(x)))
  {
  }

  /** On a register below 2^16 the narrow form reads the same entries. */
  lemma SliceStep16IsSliceStep(kind: Kind, s: Reg, data: Reg)
    requires Below16(s)
    ensures SliceStep16(kind, s, data) == SliceStep(kind, s, data)
  {
    hide Xor, Low, Shr8, Table, Below16;
    Narrow(s, data);
    NarrowSecond(s, data);
    HighHalf(s, data);
    TopByte(data);
  }

  /** All forms of the step take four bytes as four table steps do. */
  lemma FourBytes(kind: Kind, s: Reg, data: seq<bv8>)
    requires |data| == 4
    ensures SliceStep(kind, s, Word(data)) == Bytewise(kind, s, data)
    ensures SmallStep(kind, s, Word(data)) == Bytewise(kind, s, data)
    ensures Below16(s) ==> SliceStep16(kind, s, Word(data)) == Bytewise(kind, s, data)
  {
    hide SliceStep, SliceStep16, SmallStep, Word, Bytewise, Below16, Xor, Shift8s;
    BytesAtOnce(kind, s, data);
    SliceStepShifts(kind, s, Word(data));
    SmallStepShifts(kind, s, Word(data));
    if Below16(s) {
      SliceStep16IsSliceStep(kind, s, Word(data));
    }
  }

  /* ----- bursts ----- */

  lemma StepRaw(s: bv32, t: bv32)
    requires (s >> 1) ^ (if s & 1 == 1 then 0xEDB8_8320 else 0) == (t >> 1) ^ (if t & 1 == 1 then 0xEDB8_8320 else 0)
    ensures s == t
  {
  }

  lemma StepOneToOne(s: Reg, t: Reg)
    requires Step(Poly(Crc32), s) == Step(Poly(Crc32), t)
    ensures s == t
  {
    StepRaw(s, t);
  }

  lemma {:induction false} StepsOneToOne(s: Reg, t: Reg, n: nat)
    requires Steps(Poly(Crc32), s, n) == Steps(Poly(Crc32), t, n)
    ensures s == t
    decreases n
  {
    hide ShiftIn, Poly, Half;
    ZeroShifts();
    if n > 0 {
      StepsOneToOne(Step(Poly(Crc32), s), Step(Poly(Crc32), t), n - 1);
      StepOneToOne(s, t);
    }
  }

  lemma {:induction false} Shift8sOneToOne(s: Reg, t: Reg, n: nat)
    requires Shift8s(Crc32, s, n) == Shift8s(Crc32, t, n)
    ensures s == t
    decreases n
  {
    hide Shift8, Feed, Poly;
    if n > 0 {
      Shift8sOneToOne(Shift8(Crc32, s), Shift8(Crc32, t), n - 1);
      Shift8IsSteps(Crc32, s);
      Shift8IsSteps(Crc32, t);
      StepsOneToOne(s, t, 8);
    }
  }

  lemma XorOneToOne(a: Reg, s: Reg, t: Reg)
    requires Xor(s, a) == Xor(t, a)
    ensures s == t
  {
    hide Xor;
    XorGroup(s, a, a);
    XorGroup(t, a, a);
    XorGroup(a, a, ZERO);
    XorGroup(s, ZERO, ZERO);
    XorGroup(t, ZERO, ZERO);
  }

  /** A message takes different registers to different registers. */
  lemma {:induction false} BytewiseOneToOne(s: Reg, t: Reg, data: seq<bv8>)
    requires Bytewise(Crc32, s, data) == Bytewise(Crc32, t, data)
    ensures s == t
    decreases |data|
  {
    hide ByteStep, Shift8, Xor, Wide;
    if data != [] {
      BytewiseOneToOne(ByteStep(Crc32, s, data[0]), ByteStep(Crc32, t, data[0]), data[1..]);
      ByteStepShifts(Crc32, s, data[0]);
      ByteStepShifts(Crc32, t, data[0]);
      Shift8sOneToOne(Xor(s, Wide(data[0])), Xor(t, Wide(data[0])), 1);
      XorOneToOne(Wide(data[0]), s, t);
    }
  }

  lemma WideOneToOne(a: bv8, b: bv8)
    requires Wide(a) == Wide(b)
    ensures a == b
  {
  }

  /** The low byte of a word of at most four bytes is the first, and the rest is the word of the rest. */
  lemma WordParts(b: bv8, w: Reg)
    requires Below24(w)
    ensures Low(Xor(Wide(b), Shl8(w))) == Wide(b) && Shr8(Xor(Wide(b), Shl8(w))) == w
  {
    hide Xor, Wide, Shl8, Low, Shr8, Below24;
    WideShr8(b);
    LowLinear(Wide(b), Shl8(w));
    Shr8Linear(Wide(b), Shl8(w));
    Shl8Clears(w);
    Shl8Returns(w);
    XorGroup(Wide(b), ZERO, ZERO);
    XorGroup(ZERO, w, ZERO);
    XorGroup(w, ZERO, ZERO);
  }

  lemma {:induction false} WordOneToOne(x: seq<bv8>, y: seq<bv8>)
    requires |x| == |y| <= 4 && Word(x) == Word(y)
    ensures x == y
    decreases |x|
  {
    hide Xor, Wide, Shl8, Below24, Fits;
    if x != [] {
      WordFits(x[1..]);
      WordFits(y[1..]);
      WordParts(x[0], Word(x[1..]));
      WordParts(y[0], Word(y[1..]));
      WideOneToOne(x[0], y[0]);
      WordOneToOne(x[1..], y[1..]);
    }
  }

  /**
   * Two messages that differ only inside a window of at most four consecutive bytes leave different
   * registers, whatever the register was before.
   */
  lemma BurstSeen(s: Reg, before: seq<bv8>, x: seq<bv8>, y: seq<bv8>, after: seq<bv8>)
    requires |x| == |y| <= 4
    ensures Register(Crc32, s, before + x + after) == Register(Crc32, s, before + y + after) <==> x == y
  {
    hide Register, Bytewise, Word, Shift8s, Xor;
    if Register(Crc32, s, before + x + after) == Register(Crc32, s, before + y + after) {
      var r := Bytewise(Crc32, s, before);
      BytewiseIsRegister(Crc32, s, before + x + after);
      BytewiseIsRegister(Crc32, s, before + y + after);
      BytewiseConcat(Crc32, s, before + x, after);
      BytewiseConcat(Crc32, s, before + y, after);
      BytewiseConcat(Crc32, s, before, x);
      BytewiseConcat(Crc32, s, before, y);
      BytewiseOneToOne(Bytewise(Crc32, r, x), Bytewise(Crc32, r, y), after);
      BytesAtOnce(Crc32, r, x);
      BytesAtOnce(Crc32, r, y);
      Shift8sOneToOne(Xor(r, Word(x)), Xor(r, Word(y)), |x|);
      XorGroup(r, Word(x), ZERO);
      XorGroup(r, Word(y), ZERO);
      XorOneToOne(r, Word(x), Word(y));
      WordOneToOne(x, y);
    }
  }

  function Inverted(s: Reg): Reg { s ^ 0xFFFF_FFFF }

  /** The CRC-32 of a message. */
  function Crc32Of(data: seq<bv8>): Reg { Inverted(Register(Crc32, 0xFFFF_FFFF, data)) }

  lemma InvertedOneToOne(s: Reg, t: Reg)
    requires Inverted(s) == Inverted(t)
    ensures s == t
  {
    XorOneToOne(0xFFFF_FFFF, s, t);
  }

  /** Changing at most four consecutive bytes changes the CRC-32. */
  lemma BurstDetected(before: seq<bv8>, x: seq<bv8>, y: seq<bv8>, after: seq<bv8>)
    requires |x| == |y| <= 4
    ensures Crc32Of(before + x + after) == Crc32Of(before + y + after) <==> x == y
  {
    hide Register, Inverted;
    BurstSeen(0xFFFF_FFFF, before, x, y, after);
    if Crc32Of(before + x + after) == Crc32Of(before + y + after) {
      InvertedOneToOne(Register(Crc32, 0xFFFF_FFFF, before + x + after),
                       Register(Crc32, 0xFFFF_FFFF, before + y + after));
    }
  }

  /** The register after one update call for each part, starting from `s`. */
  function RegisterOfCalls(kind: Kind, s: Reg, parts: seq<seq<bv8>>): Reg
    decreases |parts|
  {
    if parts == [] then s else RegisterOfCalls(kind, Register(kind, s, parts[0]), parts[1..])
  }

  /** However a message is divided into calls, the register is that of the whole message. */
  lemma {:induction false} CallsJoin(kind: Kind, s: Reg, parts: seq<seq<bv8>>)
    ensures RegisterOfCalls(kind, s, parts) == Register(kind, s, Bytes.Concat(parts))
    decreases |parts|
  {
    if parts != [] {
      RegisterConcat(kind, s, parts[0], Bytes.Concat(parts[1..]));
      CallsJoin(kind, Register(kind, s, parts[0]), parts[1..]);
    }
  }

  /* ----- the update loops ----- */

  lemma BytewiseOne(kind: Kind, s: Reg, data: seq<bv8>, i: nat)
    requires i < |data|
    ensures Bytewise(kind, s, data[..i + 1]) == ByteStep(kind, Bytewise(kind, s, data[..i]), data[i])
  {
    hide ByteStep;
    assert data[..i + 1] == data[..i] + [data[i]];
    BytewiseConcat(kind, s, data[..i], [data[i]]);
    assert [data[i]][1..] == [];
  }

  lemma BytewiseFour(kind: Kind, s: Reg, data: seq<bv8>, i: nat)
    requires i + 4 <= |data|
    ensures var r := Bytewise(kind, s, data[..i]); var w := Word(data[i..i + 4]);
            var r' := Bytewise(kind, s, data[..i + 4]);
            SliceStep(kind, r, w) == r' && SmallStep(kind, r, w) == r' && (Below16(r) ==> SliceStep16(kind, r, w) == r')
  {
    hide SliceStep, SmallStep, SliceStep16, Word, Below16, Bytewise;
    assert data[..i + 4] == data[..i] + data[i..i + 4];
    BytewiseConcat(kind, s, data[..i], data[i..i + 4]);
    FourBytes(kind, Bytewise(kind, s, data[..i]), data[i..i + 4]);
  }

  lemma Rev16Twice(s: Reg)
    requires Below16(s)
    ensures Rev16(Rev16(s)) == s && Below16(Rev16(s))
  {
  }

  /** A 16-bit seed is the view of some 16-bit register. */
  lemma ViewTwice(kind: Kind, s: Reg)
    requires Holds(kind, s)
    ensures View(kind, View(kind, s)) == s && Holds(kind, View(kind, s))
  {
    hide Rev16, Below16;
    if kind == Ccitt {
      Rev16Twice(s);
    }
  }

  lemma SeedIsRegister(kind: Kind, s: Reg, data: seq<bv8>)
    requires Holds(kind, s)
    ensures Bytewise(kind, s, data) == View(kind, Register(kind, View(kind, s), data))
    ensures Holds(kind, Bytewise(kind, s, data)) && Holds(kind, Register(kind, View(kind, s), data))
  {
    hide View, Holds, Bytewise, Register;
    ViewTwice(kind, s);
    BytewiseIsRegister(kind, View(kind, s), data);
    ViewTwice(kind, Register(kind, View(kind, s), data));
  }

  /** The word at `i` by `crc_n4`, when `crc` is what the bytes before it leave of `seed`. */
  method Crc16Word(kind: Kind, ghost seed: Reg, data: seq<bv8>, i: nat, crc: Reg) returns (next: Reg)
    requires kind != Crc32 && Below16(seed) && i + 4 <= |data|
    requires crc == Bytewise(kind, seed, data[..i])
    ensures next == Bytewise(kind, seed, data[..i + 4])
  {
    hide SliceStep, SmallStep, SliceStep16, Word, Below16, Bytewise, Register, View;
    SeedIsRegister(kind, seed, data[..i]);
    BytewiseFour(kind, seed, data, i);
    next := SliceStep16(kind, crc, Word(data[i..i + 4]));
  }

  /** The same by `crc_n4d`, or with the first table alone by `crcsm_n4d`. */
  method Crc32Word(ghost seed: Reg, data: seq<bv8>, i: nat, crc: Reg, big: bool) returns (next: Reg)
    requires i + 4 <= |data| && crc == Bytewise(Crc32, seed, data[..i])
    ensures next == Bytewise(Crc32, seed, data[..i + 4])
  {
    hide SliceStep, SmallStep, SliceStep16, Word, Below16, Bytewise;
    BytewiseFour(Crc32, seed, data, i);
    var word := Word(data[i..i + 4]);
    next := if big then SliceStep(Crc32, crc, word) else SmallStep(Crc32, crc, word);
  }

  /**
   * The loops shared by the 16-bit checks. `offset` is the address of the data modulo 4: single
   * bytes up to an aligned address, blocks of 16, and single bytes again.
   */
  method Update16(kind: Kind, seed: Reg, data: seq<bv8>, offset: nat) returns (crc: Reg)
    requires kind != Crc32 && Below16(seed) && offset < 4
    ensures Below16(crc) && crc == View(kind, Register(kind, View(kind, seed), data))
  {
    hide ByteStep, SliceStep, SmallStep, SliceStep16, Word, Below16, Bytewise, Register, View;
    crc := seed;
    var i := 0;
    BytewiseNone(kind, seed, data);
    while (offset + i) % 4 != 0 && i < |data|
      invariant i <= |data| && crc == Bytewise(kind, seed, data[..i])
      decreases |data| - i
    {
      BytewiseOne(kind, seed, data, i);
      crc := ByteStep(kind, crc, data[i]);
      i := i + 1;
    }
    while |data| - i >= 16
      invariant i <= |data| && crc == Bytewise(kind, seed, data[..i])
    {
      crc := Crc16Word(kind, seed, data, i, crc);
      crc := Crc16Word(kind, seed, data, i + 4, crc);
      crc := Crc16Word(kind, seed, data, i + 8, crc);
      crc := Crc16Word(kind, seed, data, i + 12, crc);
      i := i + 16;
    }
    while i < |data|
      invariant i <= |data| && crc == Bytewise(kind, seed, data[..i])
    {
      BytewiseOne(kind, seed, data, i);
      crc := ByteStep(kind, crc, data[i]);
      i := i + 1;
    }
    assert data[..i] == data;
    SeedIsRegister(kind, seed, data);
  }

  lemma BytewiseNone(kind: Kind, s: Reg, data: seq<bv8>)
    ensures Bytewise(kind, s, data[..0]) == s
  {
  }

  /** The loops of CRC-32, with the four tables or, when `big` is off, with the first alone. */
  method Update32(seed: Reg, data: seq<bv8>, offset: nat, big: bool) returns (crc: Reg)
    requires offset < 4
    ensures crc == Register(Crc32, seed, data)
  {
    hide ByteStep, SliceStep, SmallStep, SliceStep16, Word, Below16, Bytewise, Register;
    crc := seed;
    var i := 0;
    BytewiseNone(Crc32, seed, data);
    while (offset + i) % 4 != 0 && i < |data|
      invariant i <= |data| && crc == Bytewise(Crc32, seed, data[..i])
      decreases |data| - i
    {
      BytewiseOne(Crc32, seed, data, i);
      crc := ByteStep(Crc32, crc, data[i]);
      i := i + 1;
    }
    while |data| - i >= 16
      invariant i <= |data| && crc == Bytewise(Crc32, seed, data[..i])
    {
      crc := Crc32Word(seed, data, i, crc, big);
      crc := Crc32Word(seed, data, i + 4, crc, big);
      crc := Crc32Word(seed, data, i + 8, crc, big);
      crc := Crc32Word(seed, data, i + 12, crc, big);
      i := i + 16;
    }
    while i < |data|
      invariant i <= |data| && crc == Bytewise(Crc32, seed, data[..i])
    {
      BytewiseOne(Crc32, seed, data, i);
      crc := ByteStep(Crc32, crc, data[i]);
      i := i + 1;
    }
    assert data[..i] == data;
    BytewiseIsRegister(Crc32, seed, data);
  }

  function Inverted16(s: Reg): Reg { (s ^ 0xFFFF_FFFF) & 0xFFFF }

  /** The 16-bit checks; their seed is a 16-bit field. */
  class FastCRC16 {
    var seed: Reg

    constructor ()
      ensures Below16(seed)
    {
      seed := 0;
    }

    /** Returns the left-shifting register, and keeps it byte-swapped. */
    method CcittUpd(data: seq<bv8>, offset: nat) returns (crc: Reg)
      requires Below16(seed) && offset < 4
      modifies this
      ensures crc == Register(Kind.Ccitt, Rev16(old(seed)), data)
      ensures seed == Rev16(crc) && Below16(seed)
    {
      hide Below16, Rev16, Register;
      SeedIsRegister(Kind.Ccitt, seed, data);
      seed := Update16(Kind.Ccitt, seed, data, offset);
      crc := Rev16(seed);
      ViewTwice(Kind.Ccitt, Register(Kind.Ccitt, Rev16(old(seed)), data));
    }

    method Ccitt(data: seq<bv8>, offset: nat) returns (crc: Reg)
      requires offset < 4
      modifies this
      ensures crc == Register(Kind.Ccitt, 0xFFFF, data)
      ensures seed == Rev16(crc) && Below16(seed)
    {
      seed := 0xFFFF;
      crc := CcittUpd(data, offset);
    }

    method Xmodem(data: seq<bv8>, offset: nat) returns (crc: Reg)
      requires offset < 4
      modifies this
      ensures crc == Register(Kind.Ccitt, 0, data)
      ensures seed == Rev16(crc) && Below16(seed)
    {
      seed := 0;
      crc := CcittUpd(data, offset);
    }

    method ModbusUpd(data: seq<bv8>, offset: nat) returns (crc: Reg)
      requires Below16(seed) && offset < 4
      modifies this
      ensures crc == seed == Register(Kind.Modbus, old(seed), data) && Below16(seed)
    {
      hide Below16, Register;
      seed := Update16(Kind.Modbus, seed, data, offset);
      crc := seed;
    }

    method Modbus(data: seq<bv8>, offset: nat) returns (crc: Reg)
      requires offset < 4
      modifies this
      ensures crc == seed == Register(Kind.Modbus, 0xFFFF, data) && Below16(seed)
    {
      seed := 0xFFFF;
      crc := ModbusUpd(data, offset);
    }

    method KermitUpd(data: seq<bv8>, offset: nat) returns (crc: Reg)
      requires Below16(seed) && offset < 4
      modifies this
      ensures crc == seed == Register(Kind.Kermit, old(seed), data) && Below16(seed)
    {
      hide Below16, Register;
      seed := Update16(Kind.Kermit, seed, data, offset);
      crc := seed;
    }

    method Kermit(data: seq<bv8>, offset: nat) returns (crc: Reg)
      requires offset < 4
      modifies this
      ensures crc == seed == Register(Kind.Kermit, 0, data) && Below16(seed)
    {
      seed := 0;
      crc := KermitUpd(data, offset);
    }

    method X25Upd(data: seq<bv8>, offset: nat) returns (crc: Reg)
      requires Below16(seed) && offset < 4
      modifies this
      ensures seed == Register(Kind.Kermit, old(seed), data) && Below16(seed)
      ensures crc == Inverted16(seed)
    {
      hide Below16, Register;
      seed := Update16(Kind.Kermit, seed, data, offset);
      crc := Inverted16(seed);
    }

    method X25(data: seq<bv8>, offset: nat) returns (crc: Reg)
      requires offset < 4
      modifies this
      ensures seed == Register(Kind.Kermit, 0xFFFF, data) && Below16(seed)
      ensures crc == Inverted16(seed)
    {
      seed := 0xFFFF;
      crc := X25Upd(data, offset);
    }
  }

  class FastCRC32 {
    var seed: Reg

    constructor () {
      seed := 0;
    }

    method Crc32Upd(data: seq<bv8>, offset: nat, big: bool) returns (crc: Reg)
      requires offset < 4
      modifies this
      ensures seed == Register(Kind.Crc32, old(seed), data) && crc == Inverted(seed)
    {
      hide Register;
      seed := Update32(seed, data, offset, big);
      crc := Inverted(seed);
    }

    method Crc32(data: seq<bv8>, offset: nat, big: bool) returns (crc: Reg)
      requires offset < 4
      modifies this
      ensures seed == Register(Kind.Crc32, 0xFFFF_FFFF, data) && crc == Crc32Of(data)
    {
      seed := 0xFFFF_FFFF;
      crc := Crc32Upd(data, offset, big);
    }
  }

  /* ----- messages in parts ----- */

  /** The register of what is left, after the first part has been taken. */
  lemma TakePart(kind: Kind, s: Reg, parts: seq<seq<bv8>>, k: nat)
    requires k < |parts|
    ensures Register(kind, s, Bytes.Concat(parts[k..]))
         == Register(kind, Register(kind, s, parts[k]), Bytes.Concat(parts[k + 1..]))
  {
    hide Register;
    assert parts[k..][0] == parts[k] && parts[k..][1..] == parts[k + 1..];
    RegisterConcat(kind, s, parts[k], Bytes.Concat(parts[k + 1..]));
  }

  lemma NoPartLeft(kind: Kind, s: Reg, parts: seq<seq<bv8>>)
    ensures Register(kind, s, Bytes.Concat(parts[|parts|..])) == s
  {
  }

  /**
   * A message divided among update calls, each part at an alignment of its own: the last call
   * returns the CCITT check of the whole message, and the seed between calls is kept byte-swapped.
   */
  method CcittInParts(check: FastCRC16, parts: seq<seq<bv8>>, offsets: seq<nat>) returns (crc: Reg)
    requires Below16(check.seed) && |offsets| == |parts| > 0
    requires forall k | 0 <= k < |offsets| :: offsets[k] < 4
    modifies check
    ensures crc == Register(Kind.Ccitt, Rev16(old(check.seed)), Bytes.Concat(parts))
    ensures check.seed == Rev16(crc) && Below16(check.seed)
  {
    hide Register, Bytes.Concat, Rev16, Below16;
    ghost var start := Rev16(check.seed);
    assert parts[0..] == parts;
    crc := Rev16(check.seed);
    Rev16Twice(check.seed);
    for k := 0 to |parts|
      invariant Below16(check.seed) && check.seed == Rev16(crc) && Rev16(check.seed) == crc
      invariant Register(Kind.Ccitt, start, Bytes.Concat(parts)) == Register(Kind.Ccitt, crc, Bytes.Concat(parts[k..]))
    {
      TakePart(Kind.Ccitt, crc, parts, k);
      SwappedRegister(crc, parts[k]);
      crc := check.CcittUpd(parts[k], offsets[k]);
    }
    NoPartLeft(Kind.Ccitt, crc, parts);
  }

  lemma SwappedRegister(c: Reg, data: seq<bv8>)
    requires Below16(Rev16(c)) && Rev16(Rev16(c)) == c
    ensures Rev16(Rev16(Register(Ccitt, c, data))) == Register(Ccitt, c, data)
  {
    hide Rev16, Register, Below16;
    SeedIsRegister(Ccitt, Rev16(c), data);
    Rev16Twice(Register(Ccitt, c, data));
  }

  /** The same for CRC-32, with the tables of one build; the last call returns the check of the whole message. */
  method Crc32InParts(check: FastCRC32, parts: seq<seq<bv8>>, offsets: seq<nat>, big: bool) returns (crc: Reg)
    requires |offsets| == |parts| > 0 && forall k | 0 <= k < |offsets| :: offsets[k] < 4
    modifies check
    ensures check.seed == Register(Kind.Crc32, old(check.seed), Bytes.Concat(parts)) && crc == Inverted(check.seed)
    ensures old(check.seed) == 0xFFFF_FFFF ==> crc == Crc32Of(Bytes.Concat(parts))
  {
    hide Register, Bytes.Concat;
    ghost var start := check.seed;
    assert parts[0..] == parts;
    crc := Inverted(check.seed);
    for k := 0 to |parts|
      invariant crc == Inverted(check.seed)
      invariant Register(Kind.Crc32, start, Bytes.Concat(parts))
             == Register(Kind.Crc32, check.seed, Bytes.Concat(parts[k..]))
    {
      TakePart(Kind.Crc32, check.seed, parts, k);
      crc := check.Crc32Upd(parts[k], offsets[k], big);
    }
    NoPartLeft(Kind.Crc32, check.seed, parts);
  }
}
