/** What the evaluator computes at every kind of node, over the results of the
    operands: the laws of the constant language. */
module ConstMeaning {
  import opened Bits
  import opened Wrappers
  import opened IrTypes
  import opened ConstArith
  import opened ConstRefine
  import opened ConstEval
  import opened FloatFormat
  import FloatCompare

  /** A leaf is its literal, or the value of the constant it refers to. */
  lemma LeafMeans(host: Host, e: ConstExpr)
    requires Valid(host, e)
    ensures e.kind.Literal? ==> Eval(host, e) == Success(e.kind.value)
    ensures e.kind.Reference? ==>
      host.resolve(e.kind.target).Some? && Eval(host, e) == Success(host.resolve(e.kind.target).value.1)
  {
  }

  /** `and` and `or`: the left operand decides alone when it can, so that a fault on
      the right does not matter; otherwise the result is that of the right. */
  lemma LogicalMeans(host: Host, e: ConstExpr)
    requires Valid(host, e) && e.kind.Binary? && (e.kind.op.LogicalAnd? || e.kind.op.LogicalOr?)
    ensures Valid(host, e.kind.left) && Valid(host, e.kind.right)
    ensures var l, r, v := Eval(host, e.kind.left), Eval(host, e.kind.right), Eval(host, e);
      && (l.Failure? ==> v == l)
      && (l.Success? ==> l.value.Truth?) && (r.Success? ==> r.value.Truth?)
      && (e.kind.op.LogicalAnd? && l == Success(Truth(false)) ==> v == Success(Truth(false)))
      && (e.kind.op.LogicalAnd? && l == Success(Truth(true)) ==> v == r)
      && (e.kind.op.LogicalOr? && l == Success(Truth(true)) ==> v == Success(Truth(true)))
      && (e.kind.op.LogicalOr? && l == Success(Truth(false)) ==> v == r)
      && (l.Success? && r.Success? ==>
           v == Success(Truth(if e.kind.op.LogicalAnd? then l.value.b && r.value.b else l.value.b || r.value.b)))
  {
  }

  /** Other binary nodes evaluate left, then right, and report the first fault. */
  lemma StrictFaults(host: Host, e: ConstExpr)
    requires Valid(host, e)
    requires (e.kind.Binary? && !IsLogical(e.kind.op)) || e.kind.Compare?
    ensures Valid(host, e.kind.left) && Valid(host, e.kind.right)
    ensures var l, r := Eval(host, e.kind.left), Eval(host, e.kind.right);
      && (l.Failure? ==> Eval(host, e) == l)
      && (l.Success? && r.Failure? ==> Eval(host, e) == r)
  {
    hide CombineBinary, CombineCompare;
  }

  /** An integer operation yields the representative of the exact result of its
      operands in order, or the fault of a division by zero at this node. */
  lemma ArithmeticMeans(host: Host, e: ConstExpr, l: ConstValue, r: ConstValue)
    requires Valid(host, e) && e.kind.Binary? && IsInteger(e.ty)
    requires Valid(host, e.kind.left) && Eval(host, e.kind.left) == Success(l)
    requires Valid(host, e.kind.right) && Eval(host, e.kind.right) == Success(r)
    ensures IsArithmetic(e.kind.op) && ValidConstant(e.ty, l) && ValidConstant(e.ty, r)
    ensures var v := Eval(host, e);
      if e.kind.op.Div? && IntOf(r) == 0 then v == Failure(Fault(DivideByZero, e.id))
      else if e.kind.op.Rem? && IntOf(r) == 0 then v == Failure(Fault(TakeRemainderByZero, e.id))
      else (v.Success? && ValidConstant(e.ty, v.value)
            && Represents(e.ty, IntOf(v.value), Exact(e.kind.op, e.ty, IntOf(l), IntOf(r))))
  {
    hide IntBinary, InRange, Represents, Exact;
    BinaryRefines(e.kind.op, e.ty, l, r);
  }

  /** A float operation is the host's operation on its operands in order. */
  lemma FloatArithmeticMeans(host: Host, e: ConstExpr, l: ConstValue, r: ConstValue)
    requires Valid(host, e) && KeepsWidth(host) && e.kind.Binary? && IsFloat(e.ty)
    requires Valid(host, e.kind.left) && Eval(host, e.kind.left) == Success(l)
    requires Valid(host, e.kind.right) && Eval(host, e.kind.right) == Success(r)
    ensures l.F? && r.F? && Eval(host, e) == Success(F(host.arithmetic(e.kind.op, l.f, r.f)))
  {
    hide KeepsWidth, InRange;
    FloatCombines(host, e, l, r);
  }

  lemma FloatCombines(host: Host, e: ConstExpr, l: ConstValue, r: ConstValue)
    requires KeepsWidth(host) && e.kind.Binary? && IsFloat(e.ty) && IsFloatOp(e.kind.op) && e.kind.left.ty == e.ty
    requires ValidConstant(e.ty, l) && ValidConstant(e.ty, r)
    ensures CombineBinary(host, e, l, r) == Success(F(host.arithmetic(e.kind.op, l.f, r.f)))
  {
    assert FormatOf(host.arithmetic(e.kind.op, l.f, r.f)) == FormatOf(l.f);
  }

  /** Complement and negation of integers. */
  lemma UnaryMeans(host: Host, e: ConstExpr)
    requires Valid(host, e) && (e.kind.Not? || e.kind.Neg?) && IsInteger(e.ty)
    ensures Valid(host, e.kind.operand)
    ensures var x, v := Eval(host, e.kind.operand), Eval(host, e);
      && (x.Failure? ==> v == x)
      && (x.Success? ==>
           && ValidConstant(e.ty, x.value) && v.Success? && ValidConstant(e.ty, v.value)
           && Represents(e.ty, IntOf(v.value), if e.kind.Not? then -1 - IntOf(x.value) else -IntOf(x.value)))
  {
    hide IntNot, IntNegate, InRange, Represents;
    var x := Eval(host, e.kind.operand);
    if x.Success? {
      NotRefines(e.ty, x.value);
      NegateRefines(e.ty, x.value);
    }
  }

  /** The number with the opposite sign. */
  ghost function Opposite(x: Number): Number {
    match x
    case NaN => NaN
    case Infinite(negative) => Infinite(!negative)
    case Finite(units) => Finite(-units)
  }

  lemma FlippedSign(fm: Format, bits: nat, flipped: nat)
    requires var k := fm.exponentBits + fm.fractionBits;
      High(bits, k) < 2 && High(flipped, k) == 1 - High(bits, k) && Low(flipped, k) == Low(bits, k)
    ensures Decode(fm, flipped) == Opposite(Decode(fm, bits))
  {
    hide High, Low, Units;
  }

  /** Flipping the sign bit, in storage bits of `k + 1` bits. */
  lemma FlipBit(bits: nat, k: nat)
    requires bits < 2 * Pow2(k)
    ensures var flipped := if bits >= Pow2(k) then bits - Pow2(k) else bits + Pow2(k);
      High(bits, k) < 2 && High(flipped, k) == 1 - High(bits, k) && Low(flipped, k) == Low(bits, k)
  {
    hide High, Low, Up, Pow2;
    SplitWord(bits, k);
    UpIsProduct(High(bits, k), k);
    UpOne(k);
    var rest := if bits >= Pow2(k) then bits - Pow2(k) else bits;
    SplitUnique(0, rest, k);
    SplitUnique(1, rest, k);
  }

  lemma NegateFlips(f: FloatBits)
    ensures FormatOf(FloatNegate(f)) == FormatOf(f)
    ensures FloatCompare.NumberOf(FloatNegate(f)) == Opposite(FloatCompare.NumberOf(f))
  {
    hide High, Low, Pow2, Decode;
    var fm := FormatOf(f);
    var k := fm.exponentBits + fm.fractionBits;
    SignPowers();
    FlipBit(BitsOf(f), k);
    FlippedSign(fm, BitsOf(f), BitsOf(FloatNegate(f)));
  }

  lemma SignPowers()
    ensures Pow2(15) == 0x8000 && Pow2(31) == 0x8000_0000 && Pow2(63) == 0x8000_0000_0000_0000
  {
    assert Pow2(5) == 32;
    hide Pow2;
    Pow2Sum(5, 5);
    Pow2Sum(10, 5);
    Pow2At32();
    Pow2At64();
    HalvesOf(32);
    HalvesOf(64);
  }

  /** Negation of floats changes the sign of the number and nothing else. */
  lemma FloatNegationMeans(host: Host, e: ConstExpr)
    requires Valid(host, e) && e.kind.Neg? && IsFloat(e.ty)
    ensures Valid(host, e.kind.operand)
    ensures var x, v := Eval(host, e.kind.operand), Eval(host, e);
      && (x.Failure? ==> v == x)
      && (x.Success? ==>
           && x.value.F? && v.Success? && v.value.F? && FormatOf(v.value.f) == FormatOf(x.value.f)
           && FloatCompare.NumberOf(v.value.f) == Opposite(FloatCompare.NumberOf(x.value.f)))
  {
    hide FloatCompare.NumberOf, Opposite;
    var x := Eval(host, e.kind.operand);
    if x.Success? {
      NegateFlips(x.value.f);
    }
  }

  /** Comparisons of integers compare their values, in order. */
  lemma IntCompareMeans(host: Host, e: ConstExpr, l: ConstValue, r: ConstValue)
    requires Valid(host, e) && e.kind.Compare? && IsInteger(e.kind.left.ty)
    requires Valid(host, e.kind.left) && Eval(host, e.kind.left) == Success(l)
    requires Valid(host, e.kind.right) && Eval(host, e.kind.right) == Success(r)
    ensures ValidConstant(e.kind.left.ty, l) && ValidConstant(e.kind.left.ty, r)
    ensures var a, b := IntOf(l), IntOf(r);
      Eval(host, e) == Success(Truth(
        match e.kind.cmp
        case Eq => a == b
        case Ne => a != b
        case Lt => a < b
        case Le => a <= b
        case Gt => b < a
        case Ge => b <= a))
  {
    hide InRange;
  }

  /** Booleans can be equal or different. */
  lemma BoolCompareMeans(host: Host, e: ConstExpr, l: ConstValue, r: ConstValue)
    requires Valid(host, e) && e.kind.Compare? && e.kind.left.ty.Bool?
    requires Valid(host, e.kind.left) && Eval(host, e.kind.left) == Success(l)
    requires Valid(host, e.kind.right) && Eval(host, e.kind.right) == Success(r)
    ensures l.Truth? && r.Truth? && (e.kind.cmp.Eq? || e.kind.cmp.Ne?)
    ensures Eval(host, e) == Success(Truth(if e.kind.cmp.Eq? then l == r else l != r))
  {
    hide InRange;
  }

  /** Comparisons of floats compare the numbers that they denote. */
  lemma FloatCompareMeans(host: Host, e: ConstExpr, l: ConstValue, r: ConstValue)
    requires Valid(host, e) && e.kind.Compare? && IsFloat(e.kind.left.ty)
    requires Valid(host, e.kind.left) && Eval(host, e.kind.left) == Success(l)
    requires Valid(host, e.kind.right) && Eval(host, e.kind.right) == Success(r)
    ensures l.F? && r.F?
    ensures Eval(host, e) ==
      Success(Truth(FloatHolds(e.kind.cmp, FloatCompare.NumberOf(l.f), FloatCompare.NumberOf(r.f))))
  {
    hide FloatCompare.BitOrder, FloatCompare.IsNan, FloatCompare.Compare, InRange, Decode;
    FloatCompare.CompareMeans(l.f, r.f, FloatPredicate(e.kind.cmp));
  }

  /** Comparisons of floats are false for NaN, except that NaN differs from everything. */
  ghost predicate FloatHolds(cmp: CompareOp, x: Number, y: Number) {
    if x.NaN? || y.NaN? then cmp.Ne?
    else
      match cmp
      case Eq => x == y
      case Ne => x != y
      case Lt => FloatCompare.Below(x, y)
      case Le => FloatCompare.Below(x, y) || x == y
      case Gt => FloatCompare.Below(y, x)
      case Ge => FloatCompare.Below(y, x) || x == y
  }
}
