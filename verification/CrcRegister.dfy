/**
 * CRC registers: a shift register that takes one bit at a time, which defines the checks, and the
 * table step that takes a byte. The tables are defined by their generator, of which the arrays of
 * FastCRC are the transcription.
 */
module CrcRegister {

  /** The checks that share the sliced update. `Ccitt` keeps its register byte-swapped. */
  datatype Kind = Crc32 | Modbus | Kermit | Ccitt

  /** A register, a word or a table entry; the 16-bit checks use the low half. */
  type Reg = bv32

  const ZERO: Reg := 0

  function Xor(a: Reg, b: Reg): Reg { a ^ b }

  function Low(a: Reg): Reg { a & 0xff }

  function Shr8(a: Reg): Reg { a >> 8 }

  function Shl8(a: Reg): Reg { a << 8 }

  function Wide(b: bv8): Reg { b as bv32 }

  /** The reflected polynomials; CCITT's is used by a left-shifting register instead. */
  function Poly(kind: Kind): bv32 {
    match kind
    case Crc32 => 0xEDB8_8320
    case Modbus => 0xA001
    case Kermit => 0x8408
    case Ccitt => 0x1021
  }

  /* ----- the registers, one bit at a time ----- */

  function Half(b: Reg): Reg { b >> 1 }

  function Tap(poly: bv32, a: Reg): Reg { if a & 1 == 1 then poly else 0 }

  /** A right-shifting register takes in the low bit of `b`. */
  function ShiftIn(poly: bv32, s: Reg, b: Reg): Reg {
    Xor(Half(s), Tap(poly, Xor(s, b)))
  }

  /** It takes in the `n` low bits of `b`, the lowest first. */
  function Feed(poly: bv32, s: Reg, b: Reg, n: nat): Reg
    decreases n
  {
    if n == 0 then s else Feed(poly, ShiftIn(poly, s, b), Half(b), n - 1)
  }

  function Double(b: Reg): Reg { (b << 1) & 0xffff }

  function TapTop(a: Reg): Reg { if a & 0x8000 == 0x8000 then 0x1021 else 0 }

  /** A left-shifting 16-bit register takes in bit 15 of `b`. */
  function ShiftInTop(c: Reg, b: Reg): Reg {
    Xor(Double(c), TapTop(Xor(c, b)))
  }

  /** It takes in the `n` high bits of the 16 bits in `b`, the highest first. */
  function FeedTop(c: Reg, b: Reg, n: nat): Reg
    decreases n
  {
    if n == 0 then c else FeedTop(ShiftInTop(c, b), Double(b), n - 1)
  }

  /** One byte into the register. */
  function Taken(kind: Kind, s: Reg, b: bv8): Reg {
    if kind == Ccitt then FeedTop(s, Shl8(Wide(b)), 8) else Feed(Poly(kind), s, Wide(b), 8)
  }

  /** The register after a message: the definition of the check. */
  function Register(kind: Kind, s: Reg, data: seq<bv8>): Reg
    decreases |data|
  {
    if data == [] then s else Register(kind, Taken(kind, s, data[0]), data[1..])
  }

  /* ----- the tables ----- */

  function Step(poly: bv32, s: Reg): Reg { ShiftIn(poly, s, ZERO) }

  function Steps(poly: bv32, s: Reg, n: nat): Reg { Feed(poly, s, ZERO, n) }

  function StepsTop(c: Reg, n: nat): Reg { FeedTop(c, ZERO, n) }

  function Rev16(c: Reg): Reg { ((c >> 8) & 0xff) | ((c & 0xff) << 8) }

  /** The entry of the first table for the byte in `i`: the register after eight zero bits. */
  function T0(kind: Kind, i: Reg): Reg {
    if kind == Ccitt then Rev16(StepsTop(Shl8(i), 8)) else Steps(Poly(kind), i, 8)
  }

  /** Shifting the register by a byte of zeros, with the first table. */
  function Shift8(kind: Kind, s: Reg): Reg {
    Xor(Shr8(s), T0(kind, Low(s)))
  }

  /** Entry `i` of table `k`: each table shifts the entries of the one before by a byte. */
  function Table(kind: Kind, k: nat, i: Reg): Reg
    decreases k
  {
    if k == 0 then T0(kind, i) else Shift8(kind, Table(kind, k - 1, i))
  }

  /** The table step of one byte. */
  function ByteStep(kind: Kind, s: Reg, b: bv8): Reg {
    Xor(Shr8(s), T0(kind, Xor(Low(s), Wide(b))))
  }

  function Bytewise(kind: Kind, s: Reg, data: seq<bv8>): Reg
    decreases |data|
  {
    if data == [] then s else Bytewise(kind, ByteStep(kind, s, data[0]), data[1..])
  }

  /* ----- single bits ----- */

  lemma XorAssociates(a: Reg, b: Reg, c: Reg)
    ensures Xor(Xor(a, b), c) == Xor(a, Xor(b, c))
  {
  }

  lemma XorCommutes(a: Reg, b: Reg)
    ensures Xor(a, b) == Xor(b, a)
  {
  }

  lemma XorCancels(a: Reg)
    ensures Xor(a, ZERO) == a && Xor(a, a) == ZERO
  {
  }

  lemma XorGroup(a: Reg, b: Reg, c: Reg)
    ensures Xor(a, b) == Xor(b, a) && Xor(Xor(a, b), c) == Xor(a, Xor(b, c))
    ensures Xor(a, ZERO) == a && Xor(a, a) == ZERO
  {
    hide Xor;
    XorAssociates(a, b, c);
    XorCommutes(a, b);
    XorCancels(a);
  }

  lemma XorSwap(a: Reg, b: Reg, c: Reg, d: Reg)
    ensures Xor(Xor(a, b), Xor(c, d)) == Xor(Xor(a, c), Xor(b, d))
  {
    hide Xor;
    XorGroup(a, b, Xor(c, d));
    XorGroup(b, c, d);
    XorGroup(c, b, d);
    XorGroup(a, c, Xor(b, d));
  }

  lemma HalfLinear(a: Reg, b: Reg)
    ensures Half(Xor(a, b)) == Xor(Half(a), Half(b))
  {
    assert (a ^ b) >> 1 == (a >> 1) ^ (b >> 1);
  }

  lemma DoubleLinear(a: Reg, b: Reg)
    ensures Double(Xor(a, b)) == Xor(Double(a), Double(b))
  {
    assert ((a ^ b) << 1) & 0xffff == ((a << 1) & 0xffff) ^ ((b << 1) & 0xffff);
  }

  lemma Shr8Linear(a: Reg, b: Reg)
    ensures Shr8(Xor(a, b)) == Xor(Shr8(a), Shr8(b))
  {
    assert (a ^ b) >> 8 == (a >> 8) ^ (b >> 8);
  }

  lemma Shl8Linear(a: Reg, b: Reg)
    ensures Shl8(Xor(a, b)) == Xor(Shl8(a), Shl8(b))
  {
    assert (a ^ b) << 8 == (a << 8) ^ (b << 8);
  }

  lemma LowLinear(a: Reg, b: Reg)
    ensures Low(Xor(a, b)) == Xor(Low(a), Low(b))
  {
    assert (a ^ b) & 0xff == (a & 0xff) ^ (b & 0xff);
  }

  lemma Rev16Linear(a: Reg, b: Reg)
    ensures Rev16(Xor(a, b)) == Xor(Rev16(a), Rev16(b))
  {
    Rev16Raw(a, b);
  }

  lemma Rev16Raw(a: bv32, b: bv32)
    ensures (((a ^ b) >> 8) & 0xff) | (((a ^ b) & 0xff) << 8)
         == (((a >> 8) & 0xff) | ((a & 0xff) << 8)) ^ (((b >> 8) & 0xff) | ((b & 0xff) << 8))
  {
  }

  lemma LowBitRaw(a: bv32, b: bv32)
    ensures a & 1 == 1 || a & 1 == 0
    ensures (a ^ b) & 1 == 1 <==> (a & 1 == 1) != (b & 1 == 1)
  {
  }

  lemma TopBitRaw(a: bv32, b: bv32)
    ensures (a ^ b) & 0x8000 == 0x8000 <==> (a & 0x8000 == 0x8000) != (b & 0x8000 == 0x8000)
  {
  }

  lemma ChoiceLinear(p: bool, q: bool, v: Reg)
    ensures Xor(if p then v else ZERO, if q then v else ZERO) == if p != q then v else ZERO
  {
    hide Xor;
    XorGroup(v, ZERO, ZERO);
    XorGroup(ZERO, v, ZERO);
    XorGroup(v, v, ZERO);
  }

  lemma TapLinear(poly: bv32, a: Reg, b: Reg)
    ensures Tap(poly, Xor(a, b)) == Xor(Tap(poly, a), Tap(poly, b))
  {
    LowBitRaw(a, b);
    ChoiceLinear(a & 1 == 1, b & 1 == 1, poly);
  }

  lemma TapTopLinear(a: Reg, b: Reg)
    ensures TapTop(Xor(a, b)) == Xor(TapTop(a), TapTop(b))
  {
    TopBitRaw(a, b);
    ChoiceLinear(a & 0x8000 == 0x8000, b & 0x8000 == 0x8000, 0x1021);
  }

  /* ----- linearity of the registers ----- */

  lemma ShiftInLinear(poly: bv32, s: Reg, t: Reg, a: Reg, b: Reg)
    ensures ShiftIn(poly, Xor(s, t), Xor(a, b)) == Xor(ShiftIn(poly, s, a), ShiftIn(poly, t, b))
  {
    hide Xor, Tap, Half;
    XorSwap(s, t, a, b);
    HalfLinear(s, t);
    TapLinear(poly, Xor(s, a), Xor(t, b));
    XorSwap(Half(s), Half(t), Tap(poly, Xor(s, a)), Tap(poly, Xor(t, b)));
  }

  lemma ShiftInTopLinear(s: Reg, t: Reg, a: Reg, b: Reg)
    ensures ShiftInTop(Xor(s, t), Xor(a, b)) == Xor(ShiftInTop(s, a), ShiftInTop(t, b))
  {
    hide Xor, TapTop, Double;
    XorSwap(s, t, a, b);
    DoubleLinear(s, t);
    TapTopLinear(Xor(s, a), Xor(t, b));
    XorSwap(Double(s), Double(t), TapTop(Xor(s, a)), TapTop(Xor(t, b)));
  }

  lemma {:induction false} FeedLinear(poly: bv32, s: Reg, t: Reg, a: Reg, b: Reg, n: nat)
    ensures Feed(poly, Xor(s, t), Xor(a, b), n) == Xor(Feed(poly, s, a, n), Feed(poly, t, b, n))
    decreases n
  {
    hide Xor, ShiftIn, Half;
    if n > 0 {
      ShiftInLinear(poly, s, t, a, b);
      HalfLinear(a, b);
      FeedLinear(poly, ShiftIn(poly, s, a), ShiftIn(poly, t, b), Half(a), Half(b), n - 1);
    }
  }

  lemma {:induction false} FeedTopLinear(s: Reg, t: Reg, a: Reg, b: Reg, n: nat)
    ensures FeedTop(Xor(s, t), Xor(a, b), n) == Xor(FeedTop(s, a, n), FeedTop(t, b, n))
    decreases n
  {
    hide Xor, ShiftInTop, Double;
    if n > 0 {
      ShiftInTopLinear(s, t, a, b);
      DoubleLinear(a, b);
      FeedTopLinear(ShiftInTop(s, a), ShiftInTop(t, b), Double(a), Double(b), n - 1);
    }
  }

  lemma T0Linear(kind: Kind, i: Reg, j: Reg)
    ensures T0(kind, Xor(i, j)) == Xor(T0(kind, i), T0(kind, j))
  {
    hide Xor, Feed, FeedTop, Shl8, Rev16, Poly;
    XorGroup(ZERO, ZERO, ZERO);
    if kind == Ccitt {
      Shl8Linear(i, j);
      FeedTopLinear(Shl8(i), Shl8(j), ZERO, ZERO, 8);
      Rev16Linear(StepsTop(Shl8(i), 8), StepsTop(Shl8(j), 8));
    } else {
      FeedLinear(Poly(kind), i, j, ZERO, ZERO, 8);
    }
  }

  lemma Shift8Linear(kind: Kind, s: Reg, t: Reg)
    ensures Shift8(kind, Xor(s, t)) == Xor(Shift8(kind, s), Shift8(kind, t))
  {
    hide Xor, Shr8, Low, T0;
    Shr8Linear(s, t);
    LowLinear(s, t);
    T0Linear(kind, Low(s), Low(t));
    XorSwap(Shr8(s), Shr8(t), T0(kind, Low(s)), T0(kind, Low(t)));
  }

  lemma T0Zero(kind: Kind)
    ensures T0(kind, ZERO) == ZERO
  {
    hide Xor, T0;
    T0Linear(kind, ZERO, ZERO);
    XorGroup(ZERO, ZERO, ZERO);
    XorGroup(T0(kind, ZERO), ZERO, ZERO);
  }

  predicate Below24(a: Reg) { a >> 24 == 0 }

  lemma Shl8Clears(a: Reg)
    ensures Low(Shl8(a)) == ZERO
  {
  }

  lemma Shl8Returns(a: Reg)
    requires Below24(a)
    ensures Shr8(Shl8(a)) == a
  {
    Shl8Raw(a);
  }

  lemma Shl8Raw(a: bv32)
    requires a >> 24 == 0
    ensures (a << 8) >> 8 == a
  {
  }

  /** Shifting a register whose low byte is clear only moves it. */
  lemma Shift8Moves(kind: Kind, a: Reg)
    requires Below24(a)
    ensures Shift8(kind, Shl8(a)) == a
  {
    hide Xor, Shr8, Shl8, Low, T0, Below24;
    Shl8Clears(a);
    Shl8Returns(a);
    T0Zero(kind);
    XorGroup(a, ZERO, ZERO);
  }

  /* ----- one byte: the table step is eight bit steps ----- */

  function Halves(b: Reg, n: nat): Reg
    decreases n
  {
    if n == 0 then b else Halves(Half(b), n - 1)
  }

  function Doubles(b: Reg, n: nat): Reg
    decreases n
  {
    if n == 0 then b else Doubles(Double(b), n - 1)
  }

  lemma ShiftInStep(poly: bv32, s: Reg, b: Reg)
    ensures Step(poly, Xor(s, b)) == Xor(ShiftIn(poly, s, b), Half(b))
  {
    hide Xor, Half, Tap;
    var t := Tap(poly, Xor(s, b));
    HalfLinear(s, b);
    XorGroup(Xor(s, b), ZERO, ZERO);
    XorGroup(Half(s), Half(b), t);
    XorGroup(Half(b), t, ZERO);
    XorGroup(Half(s), t, Half(b));
  }

  lemma ShiftInTopStep(c: Reg, b: Reg)
    ensures ShiftInTop(Xor(c, b), ZERO) == Xor(ShiftInTop(c, b), Double(b))
  {
    hide Xor, Double, TapTop;
    var t := TapTop(Xor(c, b));
    DoubleLinear(c, b);
    XorGroup(Xor(c, b), ZERO, ZERO);
    XorGroup(Double(c), Double(b), t);
    XorGroup(Double(b), t, ZERO);
    XorGroup(Double(c), t, Double(b));
  }

  lemma ZeroShifts()
    ensures Half(ZERO) == ZERO && Double(ZERO) == ZERO
  {
  }

  /** Taking the bits in one at a time leaves what adding them at once and then stepping leaves. */
  lemma {:induction false} FeedIsSteps(poly: bv32, s: Reg, b: Reg, n: nat)
    ensures Steps(poly, Xor(s, b), n) == Xor(Feed(poly, s, b, n), Halves(b, n))
    decreases n
  {
    hide Xor, Half, ShiftIn;
    ZeroShifts();
    if n > 0 {
      ShiftInStep(poly, s, b);
      FeedIsSteps(poly, ShiftIn(poly, s, b), Half(b), n - 1);
    }
  }

  lemma {:induction false} FeedTopIsSteps(c: Reg, b: Reg, n: nat)
    ensures StepsTop(Xor(c, b), n) == Xor(FeedTop(c, b, n), Doubles(b, n))
    decreases n
  {
    hide Xor, Double, ShiftInTop;
    ZeroShifts();
    if n > 0 {
      ShiftInTopStep(c, b);
      FeedTopIsSteps(ShiftInTop(c, b), Double(b), n - 1);
    }
  }

  predicate Odd(a: Reg) { a & 1 == 1 }

  predicate High(a: Reg) { a & 0x8000 == 0x8000 }

  /** The next `n` bits to leave are zero. */
  predicate PlainRun(a: Reg, n: nat)
    decreases n
  {
    n == 0 || (!Odd(a) && PlainRun(Half(a), n - 1))
  }

  predicate PlainRunTop(c: Reg, n: nat)
    decreases n
  {
    n == 0 || (!High(c) && PlainRunTop(Double(c), n - 1))
  }

  lemma PlainStep(poly: bv32, a: Reg)
    requires !Odd(a)
    ensures Step(poly, a) == Half(a)
  {
    hide Xor, Half;
    XorGroup(a, ZERO, ZERO);
    XorGroup(Half(a), ZERO, ZERO);
  }

  lemma PlainStepTop(c: Reg)
    requires !High(c)
    ensures ShiftInTop(c, ZERO) == Double(c)
  {
    hide Xor, Double;
    XorGroup(c, ZERO, ZERO);
    XorGroup(Double(c), ZERO, ZERO);
  }

  /** While the bits that leave are zero, stepping only shifts. */
  lemma {:induction false} PlainSteps(poly: bv32, a: Reg, n: nat)
    requires PlainRun(a, n)
    ensures Steps(poly, a, n) == Halves(a, n)
    decreases n
  {
    hide Half, Odd, ShiftIn;
    if n > 0 {
      ZeroShifts();
      PlainStep(poly, a);
      PlainSteps(poly, Half(a), n - 1);
    }
  }

  lemma {:induction false} PlainStepsTop(c: Reg, n: nat)
    requires PlainRunTop(c, n)
    ensures StepsTop(c, n) == Doubles(c, n)
    decreases n
  {
    hide Double, High, ShiftInTop;
    if n > 0 {
      ZeroShifts();
      PlainStepTop(c);
      PlainStepsTop(Double(c), n - 1);
    }
  }

  lemma Halves8(a: Reg)
    ensures Halves(a, 8) == Shr8(a)
  {
    hide Half, Shr8;
    Halves8Raw(a);
  }

  lemma Halves8Raw(a: Reg)
    ensures Half(Half(Half(Half(Half(Half(Half(Half(a)))))))) == Shr8(a)
  {
  }

  lemma Doubles8(a: Reg)
    ensures Doubles(a, 8) == Double8(a)
  {
    hide Double, Double8;
    Doubles8Raw(a);
  }

  function Double8(a: Reg): Reg { (a << 8) & 0xffff }

  lemma Doubles8Raw(a: Reg)
    ensures Double(Double(Double(Double(Double(Double(Double(Double(a)))))))) == Double8(a)
  {
  }

  lemma Shl8IsEven(x: Reg)
    ensures var a := Shl8(x);
            !Odd(a) && !Odd(Half(a)) && !Odd(Half(Half(a))) && !Odd(Half(Half(Half(a))))
  {
  }

  lemma Shl8StaysEven(x: Reg)
    ensures var a := Half(Half(Half(Half(Shl8(x)))));
            !Odd(a) && !Odd(Half(a)) && !Odd(Half(Half(a))) && !Odd(Half(Half(Half(a))))
  {
  }

  lemma Shl8Plain(x: Reg)
    ensures PlainRun(Shl8(x), 8)
  {
    hide Odd, Half, Shl8;
    Shl8IsEven(x);
    Shl8StaysEven(x);
    assert PlainRun(Half(Half(Half(Half(Shl8(x))))), 4);
  }

  lemma LowIsLow(x: Reg)
    ensures var a := Low(x);
            !High(a) && !High(Double(a)) && !High(Double(Double(a))) && !High(Double(Double(Double(a))))
  {
  }

  lemma LowStaysLow(x: Reg)
    ensures var a := Double(Double(Double(Double(Low(x)))));
            !High(a) && !High(Double(a)) && !High(Double(Double(a))) && !High(Double(Double(Double(a))))
  {
  }

  lemma LowPlain(x: Reg)
    ensures PlainRunTop(Low(x), 8)
  {
    hide High, Double, Low;
    LowIsLow(x);
    LowStaysLow(x);
    assert PlainRunTop(Double(Double(Double(Double(Low(x))))), 4);
  }

  lemma SplitLow(s: Reg)
    ensures Xor(Shl8(Shr8(s)), Low(s)) == s && Below24(Shr8(s))
  {
  }

  lemma WideShr8(b: bv8)
    ensures Shr8(Wide(b)) == ZERO && Low(Wide(b)) == Wide(b) && Below24(Wide(b))
  {
  }

  /** Eight zero bits, by the first table. */
  lemma Shift8IsSteps(kind: Kind, s: Reg)
    requires kind != Ccitt
    ensures Shift8(kind, s) == Steps(Poly(kind), s, 8)
  {
    hide Xor, Shr8, Shl8, Low, Feed, Poly, Below24, Odd, Half;
    var top := Shl8(Shr8(s));
    SplitLow(s);
    FeedLinear(Poly(kind), top, Low(s), ZERO, ZERO, 8);
    XorGroup(ZERO, ZERO, ZERO);
    Shl8Plain(Shr8(s));
    PlainSteps(Poly(kind), top, 8);
    Halves8(top);
    Shl8Returns(Shr8(s));
  }

  /** The table step of a byte is eight steps of the bit register. */
  lemma ByteStepIsFeed(kind: Kind, s: Reg, b: bv8)
    requires kind != Ccitt
    ensures ByteStep(kind, s, b) == Feed(Poly(kind), s, Wide(b), 8)
  {
    hide Xor, Shr8, Low, T0, Feed, Poly, Wide, Halves, Below24;
    ByteStepShifts(kind, s, b);
    Shift8IsSteps(kind, Xor(s, Wide(b)));
    FeedIsSteps(Poly(kind), s, Wide(b), 8);
    Halves8(Wide(b));
    WideShr8(b);
    XorGroup(Feed(Poly(kind), s, Wide(b), 8), ZERO, ZERO);
  }

  lemma ByteStepShifts(kind: Kind, s: Reg, b: bv8)
    ensures ByteStep(kind, s, b) == Shift8(kind, Xor(s, Wide(b)))
  {
    hide Xor, Shr8, Low, T0, Wide, Below24;
    WideShr8(b);
    Shr8Linear(s, Wide(b));
    LowLinear(s, Wide(b));
    XorGroup(Shr8(s), ZERO, ZERO);
  }

  predicate Below16(a: Reg) { a >> 16 == 0 }

  lemma SplitTop(c: Reg)
    requires Below16(c)
    ensures Xor(Shl8(Low(Rev16(c))), Low(c)) == c
    ensures Shr8(Rev16(c)) == Low(c)
  {
  }

  lemma LowTurned(c: Reg)
    ensures Rev16(Double8(Low(c))) == Low(c)
  {
  }

  lemma ByteTurned(b: bv8)
    ensures Rev16(Shl8(Wide(b))) == Wide(b) && Double8(Shl8(Wide(b))) == ZERO && Below16(Shl8(Wide(b)))
  {
  }

  lemma Below16Xor(a: Reg, b: Reg)
    requires Below16(a) && Below16(b)
    ensures Below16(Xor(a, b))
  {
  }

  /** The byte-swapped register of CCITT moves as the left-shifting one does. */
  lemma Shift8IsStepsTop(c: Reg)
    requires Below16(c)
    ensures Shift8(Ccitt, Rev16(c)) == Rev16(StepsTop(c, 8))
  {
    hide Xor, Shr8, Shl8, Low, FeedTop, Below16, Rev16, High, Double, Double8;
    var top := Shl8(Low(Rev16(c)));
    SplitTop(c);
    FeedTopLinear(top, Low(c), ZERO, ZERO, 8);
    XorGroup(ZERO, ZERO, ZERO);
    LowPlain(c);
    PlainStepsTop(Low(c), 8);
    Doubles8(Low(c));
    LowTurned(c);
    Rev16Linear(StepsTop(top, 8), Double8(Low(c)));
    XorGroup(Rev16(StepsTop(top, 8)), Low(c), ZERO);
  }

  lemma ByteStepIsFeedTop(c: Reg, b: bv8)
    requires Below16(c)
    ensures ByteStep(Ccitt, Rev16(c), b) == Rev16(FeedTop(c, Shl8(Wide(b)), 8))
  {
    hide Xor, Shr8, Shl8, Low, Shift8, FeedTop, Below16, Rev16, Wide, Doubles, Double8, ByteStep;
    var top := Shl8(Wide(b));
    ByteStepShifts(Ccitt, Rev16(c), b);
    ByteTurned(b);
    Rev16Linear(c, top);
    Below16Xor(c, top);
    Shift8IsStepsTop(Xor(c, top));
    FeedTopIsSteps(c, top, 8);
    Doubles8(top);
    XorGroup(FeedTop(c, top, 8), ZERO, ZERO);
  }

  /* ----- whole messages ----- */

  /** What the `seed` field holds for a register. */
  function View(kind: Kind, s: Reg): Reg { if kind == Ccitt then Rev16(s) else s }

  predicate Holds(kind: Kind, s: Reg) { kind != Crc32 ==> Below16(s) }

  lemma TapBelow16(kind: Kind, s: Reg, a: Reg)
    requires kind != Crc32 && Below16(s)
    ensures Below16(Half(s)) && Below16(Tap(Poly(kind), a))
  {
  }

  lemma TapTopBelow16(c: Reg, a: Reg)
    ensures Below16(Double(c)) && Below16(TapTop(a))
  {
  }

  lemma {:induction false} FeedBelow16(kind: Kind, s: Reg, b: Reg, n: nat)
    requires kind != Crc32 && Below16(s)
    ensures Below16(Feed(Poly(kind), s, b, n))
    decreases n
  {
    hide Xor, Half, Tap, Below16, Poly;
    if n > 0 {
      var t := Xor(s, b);
      TapBelow16(kind, s, t);
      Below16Xor(Half(s), Tap(Poly(kind), t));
      FeedBelow16(kind, ShiftIn(Poly(kind), s, b), Half(b), n - 1);
    }
  }

  lemma {:induction false} FeedTopBelow16(c: Reg, b: Reg, n: nat)
    requires Below16(c)
    ensures Below16(FeedTop(c, b, n))
    decreases n
  {
    hide Xor, Double, TapTop, Below16;
    if n > 0 {
      var t := Xor(c, b);
      TapTopBelow16(c, t);
      Below16Xor(Double(c), TapTop(t));
      FeedTopBelow16(ShiftInTop(c, b), Double(b), n - 1);
    }
  }

  lemma ByteStepIsTaken(kind: Kind, s: Reg, b: bv8)
    requires Holds(kind, s)
    ensures ByteStep(kind, View(kind, s), b) == View(kind, Taken(kind, s, b)) && Holds(kind, Taken(kind, s, b))
  {
    hide ByteStep, Feed, FeedTop, Poly, Below16, Shl8, Wide, Rev16;
    if kind == Ccitt {
      ByteStepIsFeedTop(s, b);
      FeedTopBelow16(s, Shl8(Wide(b)), 8);
    } else {
      ByteStepIsFeed(kind, s, b);
      if kind != Crc32 {
        FeedBelow16(kind, s, Wide(b), 8);
      }
    }
  }

  /** The table-driven register is the bit register of the same message. */
  lemma {:induction false} BytewiseIsRegister(kind: Kind, s: Reg, data: seq<bv8>)
    requires Holds(kind, s)
    ensures Bytewise(kind, View(kind, s), data) == View(kind, Register(kind, s, data))
    ensures Holds(kind, Register(kind, s, data))
    decreases |data|
  {
    hide ByteStep, Taken, View, Holds;
    if data != [] {
      ByteStepIsTaken(kind, s, data[0]);
      BytewiseIsRegister(kind, Taken(kind, s, data[0]), data[1..]);
    }
  }

  /** Dividing a message among calls does not change the register. */
  lemma {:induction false} RegisterConcat(kind: Kind, s: Reg, a: seq<bv8>, b: seq<bv8>)
    ensures Register(kind, s, a + b) == Register(kind, Register(kind, s, a), b)
    decreases |a|
  {
    hide Taken;
    if a == [] {
      assert a + b == b;
    } else {
      assert (a + b)[1..] == a[1..] + b;
      RegisterConcat(kind, Taken(kind, s, a[0]), a[1..], b);
    }
  }

  lemma {:induction false} BytewiseConcat(kind: Kind, s: Reg, a: seq<bv8>, b: seq<bv8>)
    ensures Bytewise(kind, s, a + b) == Bytewise(kind, Bytewise(kind, s, a), b)
    decreases |a|
  {
    hide ByteStep;
    if a == [] {
      assert a + b == b;
    } else {
      assert (a + b)[1..] == a[1..] + b;
      BytewiseConcat(kind, ByteStep(kind, s, a[0]), a[1..], b);
    }
  }

  /* ----- entries of the arrays ----- */

  // The entries of FastCRC_tables.h at the powers of two. All others are sums of these, by `T0Linear`.

  lemma OneStep(poly: bv32, s: Reg, n: nat)
    requires n > 0
    ensures Steps(poly, s, n) == Steps(poly, Step(poly, s), n - 1) && Steps(poly, s, 0) == s
  {
    hide ShiftIn, Half;
    ZeroShifts();
  }

  lemma OneStepTop(c: Reg, n: nat)
    requires n > 0
    ensures StepsTop(c, n) == StepsTop(ShiftInTop(c, ZERO), n - 1) && StepsTop(c, 0) == c
  {
    hide ShiftInTop, Double;
    ZeroShifts();
  }

  /** `after[k]` is what `k` steps make of the first of them. */
  lemma {:induction false} ChainIs(poly: bv32, after: seq<Reg>, k: nat, n: nat)
    requires k + n < |after| && forall j | 0 <= j < |after| - 1 :: after[j + 1] == Step(poly, after[j])
    ensures Steps(poly, after[k], n) == after[k + n]
    decreases n
  {
    hide Steps, Step;
    if n > 0 {
      ChainIs(poly, after, k + 1, n - 1);
    }
    OneStep(poly, after[k], if n > 0 then n else 1);
  }

  lemma {:induction false} ChainTopIs(after: seq<Reg>, k: nat, n: nat)
    requires k + n < |after| && forall j | 0 <= j < |after| - 1 :: after[j + 1] == ShiftInTop(after[j], ZERO)
    ensures StepsTop(after[k], n) == after[k + n]
    decreases n
  {
    hide StepsTop, ShiftInTop;
    if n > 0 {
      ChainTopIs(after, k + 1, n - 1);
    }
    OneStepTop(after[k], if n > 0 then n else 1);
  }

  lemma Crc32Entries()
    ensures T0(Crc32, 1) == 0x7707_3096 && T0(Crc32, 2) == 0xEE0E_612C
    ensures T0(Crc32, 4) == 0x076D_C419 && T0(Crc32, 8) == 0x0EDB_8832
    ensures T0(Crc32, 16) == 0x1DB7_1064 && T0(Crc32, 32) == 0x3B6E_20C8
    ensures T0(Crc32, 64) == 0x76DC_4190 && T0(Crc32, 128) == 0xEDB8_8320
  {
    hide Steps, Step;
    var after: seq<Reg> := [128, 64, 32, 16, 8, 4, 2, 1,
                            0xEDB8_8320, 0x76DC_4190, 0x3B6E_20C8, 0x1DB7_1064,
                            0x0EDB_8832, 0x076D_C419, 0xEE0E_612C, 0x7707_3096];
    Crc32Chain();
    ChainIs(0xEDB8_8320, after, 7, 8);
    ChainIs(0xEDB8_8320, after, 6, 8);
    ChainIs(0xEDB8_8320, after, 5, 8);
    ChainIs(0xEDB8_8320, after, 4, 8);
    ChainIs(0xEDB8_8320, after, 3, 8);
    ChainIs(0xEDB8_8320, after, 2, 8);
    ChainIs(0xEDB8_8320, after, 1, 8);
    ChainIs(0xEDB8_8320, after, 0, 8);
  }

  lemma Crc32Chain()
    ensures Step(0xEDB8_8320, 128) == 64
    ensures Step(0xEDB8_8320, 64) == 32
    ensures Step(0xEDB8_8320, 32) == 16
    ensures Step(0xEDB8_8320, 16) == 8
    ensures Step(0xEDB8_8320, 8) == 4
    ensures Step(0xEDB8_8320, 4) == 2
    ensures Step(0xEDB8_8320, 2) == 1
    ensures Step(0xEDB8_8320, 1) == 0xEDB8_8320
    ensures Step(0xEDB8_8320, 0xEDB8_8320) == 0x76DC_4190
    ensures Step(0xEDB8_8320, 0x76DC_4190) == 0x3B6E_20C8
    ensures Step(0xEDB8_8320, 0x3B6E_20C8) == 0x1DB7_1064
    ensures Step(0xEDB8_8320, 0x1DB7_1064) == 0x0EDB_8832
    ensures Step(0xEDB8_8320, 0x0EDB_8832) == 0x076D_C419
    ensures Step(0xEDB8_8320, 0x076D_C419) == 0xEE0E_612C
    ensures Step(0xEDB8_8320, 0xEE0E_612C) == 0x7707_3096
  {
  }

  lemma ModbusEntries()
    ensures T0(Modbus, 1) == 0xC0C1 && T0(Modbus, 2) == 0xC181
    ensures T0(Modbus, 4) == 0xC301 && T0(Modbus, 8) == 0xC601
    ensures T0(Modbus, 16) == 0xCC01 && T0(Modbus, 32) == 0xD801
    ensures T0(Modbus, 64) == 0xF001 && T0(Modbus, 128) == 0xA001
  {
    hide Steps, Step;
    var after: seq<Reg> := [128, 64, 32, 16, 8, 4, 2, 1,
                            0xA001, 0xF001, 0xD801, 0xCC01,
                            0xC601, 0xC301, 0xC181, 0xC0C1];
    ModbusChain();
    ChainIs(0xA001, after, 7, 8);
    ChainIs(0xA001, after, 6, 8);
    ChainIs(0xA001, after, 5, 8);
    ChainIs(0xA001, after, 4, 8);
    ChainIs(0xA001, after, 3, 8);
    ChainIs(0xA001, after, 2, 8);
    ChainIs(0xA001, after, 1, 8);
    ChainIs(0xA001, after, 0, 8);
  }

  lemma ModbusChain()
    ensures Step(0xA001, 128) == 64
    ensures Step(0xA001, 64) == 32
    ensures Step(0xA001, 32) == 16
    ensures Step(0xA001, 16) == 8
    ensures Step(0xA001, 8) == 4
    ensures Step(0xA001, 4) == 2
    ensures Step(0xA001, 2) == 1
    ensures Step(0xA001, 1) == 0xA001
    ensures Step(0xA001, 0xA001) == 0xF001
    ensures Step(0xA001, 0xF001) == 0xD801
    ensures Step(0xA001, 0xD801) == 0xCC01
    ensures Step(0xA001, 0xCC01) == 0xC601
    ensures Step(0xA001, 0xC601) == 0xC301
    ensures Step(0xA001, 0xC301) == 0xC181
    ensures Step(0xA001, 0xC181) == 0xC0C1
  {
  }

  lemma KermitEntries()
    ensures T0(Kermit, 1) == 0x1189 && T0(Kermit, 2) == 0x2312
    ensures T0(Kermit, 4) == 0x4624 && T0(Kermit, 8) == 0x8C48
    ensures T0(Kermit, 16) == 0x1081 && T0(Kermit, 32) == 0x2102
    ensures T0(Kermit, 64) == 0x4204 && T0(Kermit, 128) == 0x8408
  {
    hide Steps, Step;
    var after: seq<Reg> := [128, 64, 32, 16, 8, 4, 2, 1,
                            0x8408, 0x4204, 0x2102, 0x1081,
                            0x8C48, 0x4624, 0x2312, 0x1189];
    KermitChain();
    ChainIs(0x8408, after, 7, 8);
    ChainIs(0x8408, after, 6, 8);
    ChainIs(0x8408, after, 5, 8);
    ChainIs(0x8408, after, 4, 8);
    ChainIs(0x8408, after, 3, 8);
    ChainIs(0x8408, after, 2, 8);
    ChainIs(0x8408, after, 1, 8);
    ChainIs(0x8408, after, 0, 8);
  }

  lemma KermitChain()
    ensures Step(0x8408, 128) == 64
    ensures Step(0x8408, 64) == 32
    ensures Step(0x8408, 32) == 16
    ensures Step(0x8408, 16) == 8
    ensures Step(0x8408, 8) == 4
    ensures Step(0x8408, 4) == 2
    ensures Step(0x8408, 2) == 1
    ensures Step(0x8408, 1) == 0x8408
    ensures Step(0x8408, 0x8408) == 0x4204
    ensures Step(0x8408, 0x4204) == 0x2102
    ensures Step(0x8408, 0x2102) == 0x1081
    ensures Step(0x8408, 0x1081) == 0x8C48
    ensures Step(0x8408, 0x8C48) == 0x4624
    ensures Step(0x8408, 0x4624) == 0x2312
    ensures Step(0x8408, 0x2312) == 0x1189
  {
  }

  lemma CcittEntries()
    ensures T0(Ccitt, 1) == 0x2110 && T0(Ccitt, 2) == 0x4220
    ensures T0(Ccitt, 4) == 0x8440 && T0(Ccitt, 8) == 0x0881
    ensures T0(Ccitt, 16) == 0x3112 && T0(Ccitt, 32) == 0x6224
    ensures T0(Ccitt, 64) == 0xC448 && T0(Ccitt, 128) == 0x8891
  {
    hide StepsTop, ShiftInTop;
    var after: seq<Reg> := [0x0100, 0x0200, 0x0400, 0x0800, 0x1000, 0x2000, 0x4000, 0x8000,
                            0x1021, 0x2042, 0x4084, 0x8108, 0x1231, 0x2462, 0x48C4, 0x9188];
    CcittChain();
    ChainTopIs(after, 0, 8);
    ChainTopIs(after, 1, 8);
    ChainTopIs(after, 2, 8);
    ChainTopIs(after, 3, 8);
    ChainTopIs(after, 4, 8);
    ChainTopIs(after, 5, 8);
    ChainTopIs(after, 6, 8);
    ChainTopIs(after, 7, 8);
  }

  lemma CcittChain()
    ensures ShiftInTop(0x0100, ZERO) == 0x0200
    ensures ShiftInTop(0x0200, ZERO) == 0x0400
    ensures ShiftInTop(0x0400, ZERO) == 0x0800
    ensures ShiftInTop(0x0800, ZERO) == 0x1000
    ensures ShiftInTop(0x1000, ZERO) == 0x2000
    ensures ShiftInTop(0x2000, ZERO) == 0x4000
    ensures ShiftInTop(0x4000, ZERO) == 0x8000
    ensures ShiftInTop(0x8000, ZERO) == 0x1021
    ensures ShiftInTop(0x1021, ZERO) == 0x2042
    ensures ShiftInTop(0x2042, ZERO) == 0x4084
    ensures ShiftInTop(0x4084, ZERO) == 0x8108
    ensures ShiftInTop(0x8108, ZERO) == 0x1231
    ensures ShiftInTop(0x1231, ZERO) == 0x2462
    ensures ShiftInTop(0x2462, ZERO) == 0x48C4
    ensures ShiftInTop(0x48C4, ZERO) == 0x9188
  {
  }
}
