/**
  Selection of one MOVZ or MOVN instruction for a `mov` with an immediate, with
  the two instructions as the Arm Architecture Reference Manual (DDI 0487),
  section C6.2, defines them.
 */
module MovImmediate {
  import opened Bits
  import opened Wrappers
  import opened IrTypes
  import opened ConstArith
  import opened ConstRefine

  type Width = w: nat | w == 32 || w == 64 witness 32
  type Register = r: nat | r < 32

  /** A wide move: MOVN when `inverted`, MOVZ otherwise. */
  datatype WideMove = WideMove(inverted: bool, lane: nat, immediate: nat) {
    predicate Fits(width: Width) {
      lane < width / 16 && immediate < 0x1_0000
    }

    /** The register value that the instruction leaves. */
    function Result(width: Width): int {
      var pattern := Up(immediate, 16 * lane);
      if inverted then Pow2(width) - 1 - pattern else pattern
    }

    /** MOVZ before MOVN, low lanes before high ones. */
    function Rank(): nat {
      if inverted then 4 + lane else lane
    }
  }

  datatype MovError = OutOfRange | NeedsSeveralInstructions

  const MOVZ := 0x5280_0000
  const MOVN := 0x1280_0000

  function Size64(width: Width): nat {
    if width == 64 then 0x8000_0000 else 0
  }

  /** The instruction word. */
  function Assemble(m: WideMove, width: Width, rd: Register): nat {
    Or(Or(Or(Or(if m.inverted then MOVN else MOVZ, Size64(width)), m.lane * 0x20_0000), m.immediate * 32), rd)
  }

  /** The wide move that a word is, by the fields of the encoding: `sf` in bit 31,
      `opc` in bits 30:29, the class 100101 in bits 28:23, `hw` in bits 22:21, the
      immediate in bits 20:5 and the register in bits 4:0. A word of another class,
      MOVK, an unallocated `opc` and a lane outside a 32-bit register are no such move. */
  function Decode(word: nat): Option<(WideMove, Width, Register)> {
    var sf, opc, class_ := word / 0x8000_0000, word / 0x2000_0000 % 4, word / 0x80_0000 % 64;
    var hw, immediate, rd := word / 0x20_0000 % 4, word / 32 % 0x1_0000, word % 32;
    if sf > 1 || class_ != 37 || (sf == 0 && hw >= 2) then None
    else
      var width := if sf == 1 then 64 else 32;
      match opc
      case 0 => Some((WideMove(true, hw, immediate), width, rd))
      case 2 => Some((WideMove(false, hw, immediate), width, rd))
      case _ => None
  }

  function AllOnes(width: Width): Word64 {
    if width == 64 then WORD_64 - 1 else 0xffff_ffff
  }

  /** `pattern & !(0xffff << shift) == 0`. */
  predicate FitsLane(pattern: Word64, lane: nat)
    requires lane < 4
  {
    LaneMaskFits(lane);
    And(pattern, WORD_64 - 1 - Up(0xffff, 16 * lane)) == 0
  }

  lemma LaneMaskFits(lane: nat)
    requires lane < 4
    ensures Up(0xffff, 16 * lane) < WORD_64
  {
    UpIsProduct(0xffff, 16 * lane);
    hide Up, Pow2;
    Pow2At64();
    assert Pow2(16) == 0x1_0000 by { Pow2At16(); }
    Pow2Sum(16, 16 * lane);
    Pow2Monotone(16 + 16 * lane, 64);
  }

  lemma Pow2At16()
    ensures Pow2(16) == 0x1_0000
  {
    assert Pow2(4) == 16;
    Pow2Sum(4, 4);
    Pow2Sum(8, 8);
  }

  /** Setting bits below a multiple of a power of two. */
  lemma OrBelow(high: nat, low: nat, k: nat, q: nat)
    requires high == Pow2(k) * q && low < Pow2(k)
    ensures Or(high, low) == high + low
  {
    hide Or, And, Pow2;
    AndLowHigh(low, q, k);
    AndCommutes(low, high);
    OrDisjoint(high, low);
  }

  lemma FieldPowers()
    ensures Pow2(5) == 32 && Pow2(21) == 0x20_0000 && Pow2(23) == 0x80_0000 && Pow2(31) == 0x8000_0000
  {
    assert Pow2(5) == 32;
    Pow2At16();
    Pow2Sum(5, 16);
    assert Pow2(23) == 4 * Pow2(21);
    assert Pow2(8) == 256;
    Pow2Sum(8, 23);
  }

  lemma AssembleIsSum(m: WideMove, width: Width, rd: Register)
    requires m.Fits(width)
    ensures Assemble(m, width, rd) ==
      (if m.inverted then MOVN else MOVZ) + Size64(width) + m.lane * 0x20_0000 + m.immediate * 32 + rd
  {
    hide Or, And, Pow2;
    FieldPowers();
    var base := if m.inverted then MOVN else MOVZ;
    if width == 64 {
      AndLowHigh(base, 1, 31);
      OrDisjoint(base, 0x8000_0000);
    } else {
      OrBelow(base, 0, 23, base / 0x80_0000);
    }
    var sized := base + Size64(width);
    OrBelow(sized, m.lane * 0x20_0000, 23, sized / 0x80_0000);
    var laned := sized + m.lane * 0x20_0000;
    OrBelow(laned, m.immediate * 32, 21, laned / 0x20_0000);
    var filled := laned + m.immediate * 32;
    OrBelow(filled, rd, 5, filled / 32);
  }

  /** The word of a wide move is that move, in that width and for that register. */
  lemma AssembleDecodes(m: WideMove, width: Width, rd: Register)
    requires m.Fits(width)
    ensures Assemble(m, width, rd) < 0x1_0000_0000
    ensures Decode(Assemble(m, width, rd)) == Some((m, width, rd))
  {
    hide Assemble;
    AssembleIsSum(m, width, rd);
    var top := (if m.inverted then MOVN else MOVZ) / 0x20_0000 + Size64(width) / 0x20_0000 + m.lane;
    TopBits(m.inverted, width, m.lane);
    SplitFields(Assemble(m, width, rd), top, m.immediate, rd);
  }

  /** No other word is that move. */
  lemma DecodeAssembles(word: nat)
    requires Decode(word).Some?
    ensures var (m, width, rd) := Decode(word).value; m.Fits(width) && word == Assemble(m, width, rd)
  {
    hide Assemble;
    var (m, width, rd) := Decode(word).value;
    AssembleIsSum(m, width, rd);
    var lanes := word / 0x20_0000;
    SplitWordFields(word);
    SplitFields(word, lanes, m.immediate, rd);
    TopBitsAre(m.inverted, width, lanes);
  }

  lemma SplitWordFields(word: nat)
    ensures word == 0x20_0000 * (word / 0x20_0000) + (word / 32 % 0x1_0000 * 32 + word % 32)
  {
  }

  lemma SplitFields(word: nat, lanes: nat, immediate: nat, rd: nat)
    requires rd < 32 && immediate < 0x1_0000 && word == 0x20_0000 * lanes + (immediate * 32 + rd)
    ensures word % 32 == rd && word / 32 % 0x1_0000 == immediate
    ensures word / 0x20_0000 == lanes && word / 0x80_0000 == lanes / 4
    ensures word / 0x2000_0000 == lanes / 0x100 && word / 0x8000_0000 == lanes / 0x400
  {
    var rest := immediate * 32 + rd;
    DivModUnique(word, 0x20_0000, lanes, rest);
    DivModUnique(word, 32, 0x1_0000 * lanes + immediate, rd);
    DivModUnique(0x1_0000 * lanes + immediate, 0x1_0000, lanes, immediate);
    DivModUnique(word, 0x80_0000, lanes / 4, 0x20_0000 * (lanes % 4) + rest);
    DivModUnique(word, 0x2000_0000, lanes / 0x100, 0x20_0000 * (lanes % 0x100) + rest);
    DivModUnique(word, 0x8000_0000, lanes / 0x400, 0x20_0000 * (lanes % 0x400) + rest);
  }

  /** The fields above the immediate, bit 21 being the lowest. */
  lemma TopBits(inverted: bool, width: Width, lane: nat)
    requires lane < 4
    ensures var lanes := (if inverted then MOVN else MOVZ) / 0x20_0000 + Size64(width) / 0x20_0000 + lane;
      && lanes % 4 == lane && lanes / 4 % 64 == 37
      && lanes / 0x100 % 4 == (if inverted then 0 else 2)
      && lanes / 0x400 == if width == 64 then 1 else 0
  {
  }

  lemma TopBitsAre(inverted: bool, width: Width, lanes: nat)
    requires lanes / 4 % 64 == 37 && lanes / 0x100 % 4 == (if inverted then 0 else 2)
    requires lanes / 0x400 == if width == 64 then 1 else 0
    ensures 0x20_0000 * lanes == (if inverted then MOVN else MOVZ) + Size64(width) + 0x20_0000 * (lanes % 4)
  {
  }

  /** The lane mask test, over any word length. */
  lemma {:induction false} LaneTest(pattern: nat, n: nat, shift: nat)
    requires shift + 16 <= n && pattern < Pow2(n) && Up(0xffff, shift) < Pow2(n)
    ensures And(pattern, Pow2(n) - 1 - Up(0xffff, shift)) == 0 <==>
      pattern == Up(High(pattern, shift), shift) && High(pattern, shift) < 0x1_0000
  {
    var mask := Pow2(n) - 1 - Up(0xffff, shift);
    if shift == 0 {
      LowestLaneTest(pattern, n);
    } else {
      LaneTest(pattern / 2, n - 1, shift - 1);
      AndHalves(pattern, mask);
      assert mask % 2 == 1 && mask / 2 == Pow2(n - 1) - 1 - Up(0xffff, shift - 1);
    }
  }

  lemma LowestLaneTest(pattern: nat, n: nat)
    requires 16 <= n && pattern < Pow2(n) && 0xffff < Pow2(n)
    ensures And(pattern, Pow2(n) - 1 - 0xffff) == 0 <==> pattern < 0x1_0000
  {
    hide Pow2, Up, And, High, Low;
    Pow2At16();
    Pow2Sum(16, n - 16);
    var high, ones := High(pattern, 16), Pow2(n - 16) - 1;
    UpIsProduct(ones, 16);
    AndShifted(pattern, ones, 16);
    AndLowBits(high, n - 16);
    SplitWord(pattern, 16);
    UpOne(16);
    HighBelow(pattern, 16, n - 16);
    SplitUnique(0, high, n - 16);
    UpOne(n - 16);
    UpOrder(0, high, 16);
    UpOrder(high, 1, 16);
  }

  /** A pattern fits a lane exactly when it is an immediate shifted to that lane. */
  lemma FitsLaneIs(pattern: Word64, lane: nat)
    requires lane < 4
    ensures FitsLane(pattern, lane) <==>
      pattern == Up(High(pattern, 16 * lane), 16 * lane) && High(pattern, 16 * lane) < 0x1_0000
    ensures forall immediate: nat | immediate < 0x1_0000 && pattern == Up(immediate, 16 * lane) ::
      immediate == High(pattern, 16 * lane)
  {
    hide Pow2, Up, And, High;
    Pow2At64();
    LaneMaskFits(lane);
    LaneTest(pattern, 64, 16 * lane);
    forall immediate: nat | immediate < 0x1_0000 && pattern == Up(immediate, 16 * lane)
      ensures immediate == High(pattern, 16 * lane)
    {
      SplitUnique(immediate, 0, 16 * lane);
    }
  }

  /** `value as u64 & mask` and `!bits & mask` are the value and its complement. */
  lemma RegisterBits(value: int, width: Width)
    ensures Pow2(width) - 1 == AllOnes(width)
    ensures And(value % WORD_64, AllOnes(width)) == ToWord(value, width)
    ensures And(WORD_64 - 1 - ToWord(value, width), AllOnes(width)) == AllOnes(width) - ToWord(value, width)
  {
    hide Pow2, And, Congruent;
    Pow2At32();
    Pow2At64();
    AndMask(value % WORD_64, width);
    AndMask(WORD_64 - 1 - ToWord(value, width), width);
    Pow2Sum(width, 64 - width);
    MulAssociative(Pow2(width), Pow2(64 - width), -(value / WORD_64));
    CongruentBy(value % WORD_64, value, Pow2(width), Pow2(64 - width) * -(value / WORD_64));
    SameRemainder(value % WORD_64, value, Pow2(width));
  }

  predicate InWidth(value: int, width: Width) {
    if width == 64 then -0x8000_0000_0000_0000 <= value < WORD_64 else -0x8000_0000 <= value < 0x1_0000_0000
  }

  /** The width of a register holds it, as a signed or as an unsigned number. */
  lemma InWidthIs(value: int, width: Width)
    ensures InWidth(value, width) <==> -(Pow2(width - 1) as int) <= value < Pow2(width)
  {
    hide Pow2;
    Pow2At32();
    Pow2At64();
    HalfPower(32);
    HalfPower(64);
  }

  lemma HalfPower(k: nat)
    requires k > 0
    ensures Pow2(k) == 2 * Pow2(k - 1)
  {
  }

  /** A single wide move that leaves the value in a register of this width. */
  ghost predicate Produces(m: WideMove, value: int, width: Width) {
    m.Fits(width) && m.Result(width) == ToWord(value, width)
  }

  lemma ProducesIs(m: WideMove, value: int, width: Width)
    requires m.Fits(width)
    ensures var bits := ToWord(value, width);
      Produces(m, value, width) <==> Up(m.immediate, 16 * m.lane) == if m.inverted then AllOnes(width) - bits else bits
  {
    hide Up, Pow2, And;
    RegisterBits(value, width);
  }

  lemma SmallNegative(value: int, width: Width)
    requires -65536 <= value < 0
    ensures And((-1 - value) % 0x1_0000_0000, 0xffff) == -1 - value
    ensures Produces(WideMove(true, 0, -1 - value), value, width)
  {
    hide Pow2, And;
    Pow2At16();
    AndMask((-1 - value) % 0x1_0000_0000, 16);
    RegisterBits(value, width);
    DivModUnique(value, Pow2(width), -1, value + Pow2(width));
  }

  ghost predicate NoneBelow(value: int, width: Width, rank: nat) {
    forall m: WideMove :: Produces(m, value, width) ==> m.Rank() >= rank
  }

  /** One test of the search decides one lane of one instruction. */
  lemma TryLane(value: int, width: Width, inverted: bool, lane: nat, pattern: Word64)
    requires lane < width / 16
    requires pattern == if inverted then AllOnes(width) - ToWord(value, width) else ToWord(value, width)
    ensures FitsLane(pattern, lane) ==> Produces(WideMove(inverted, lane, High(pattern, 16 * lane)), value, width)
    ensures var rank := WideMove(inverted, lane, 0).Rank();
      !FitsLane(pattern, lane) && NoneBelow(value, width, rank) ==> NoneBelow(value, width, rank + 1)
  {
    hide Produces, And, Pow2, Up, High, FitsLane, ToWord;
    FitsLaneIs(pattern, lane);
    if FitsLane(pattern, lane) {
      ProducesIs(WideMove(inverted, lane, High(pattern, 16 * lane)), value, width);
    } else {
      forall m: WideMove | Produces(m, value, width) && m.Rank() == WideMove(inverted, lane, 0).Rank() ensures false {
        ProducesFits(m, value, width);
        ProducesIs(m, value, width);
      }
    }
  }

  lemma ProducesFits(m: WideMove, value: int, width: Width)
    requires Produces(m, value, width)
    ensures m.Fits(width)
  {
  }

  lemma LanesDone(value: int, width: Width, p: nat)
    requires p < 2 && NoneBelow(value, width, 4 * p + width / 16)
    ensures NoneBelow(value, width, 4 * p + 4)
  {
  }

  lemma NothingLeft(value: int, width: Width)
    requires NoneBelow(value, width, 8)
    ensures forall m: WideMove :: !Produces(m, value, width)
  {
  }

  /** The selection of the program: small negative values take MOVN in the lowest
      lane; otherwise MOVZ is tried before MOVN, and low lanes before high ones. */
  method Select(value: Signed, width: Width, rd: Register) returns (r: Result<nat, MovError>)
    ensures r == Failure(OutOfRange) <==> !(-(Pow2(width - 1) as int) <= value < Pow2(width))
    ensures r == Failure(NeedsSeveralInstructions) <==>
      -(Pow2(width - 1) as int) <= value < Pow2(width) && forall m: WideMove :: !Produces(m, value, width)
    ensures r.Success? ==> exists m: WideMove ::
      && Decode(r.value) == Some((m, width, rd)) && Produces(m, value, width)
      && (if -65536 <= value < 0 then m.inverted && m.lane == 0
          else forall other: WideMove :: Produces(other, value, width) ==> m.Rank() <= other.Rank())
  {
    hide Produces, And, Pow2, Up, High, Assemble, Decode, FitsLane;
    InWidthIs(value, width);
    if !InWidth(value, width) {
      return Failure(OutOfRange);
    }
    if -65536 <= value < 0 {
      SmallNegative(value, width);
      AssembleDecodes(WideMove(true, 0, -1 - value), width, rd);
      return Success(Assemble(WideMove(true, 0, And((-1 - value) % 0x1_0000_0000, 0xffff)), width, rd));
    }
    RegisterBits(value, width);
    var bits := And(value % WORD_64, AllOnes(width));
    var patterns := [bits, And(WORD_64 - 1 - bits, AllOnes(width))];
    for p := 0 to 2
      invariant NoneBelow(value, width, 4 * p)
    {
      for lane := 0 to width / 16
        invariant NoneBelow(value, width, 4 * p + lane)
      {
        var pattern: Word64 := patterns[p];
        TryLane(value, width, p == 1, lane, pattern);
        if FitsLane(pattern, lane) {
          ProducesFits(WideMove(p == 1, lane, High(pattern, 16 * lane)), value, width);
          AssembleDecodes(WideMove(p == 1, lane, High(pattern, 16 * lane)), width, rd);
          return Success(Assemble(WideMove(p == 1, lane, High(pattern, 16 * lane)), width, rd));
        }
      }
      LanesDone(value, width, p);
    }
    NothingLeft(value, width);
    return Failure(NeedsSeveralInstructions);
  }
}
