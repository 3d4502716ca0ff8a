/**
  Compile-time expressions: validation of the whole tree, and evaluation as the
  language defines it, left to right with lazy boolean operators.
 */
module ConstEval {
  import opened Bits
  import opened Wrappers
  import opened IrTypes
  import opened ConstArith
  import opened ConstRefine
  import FloatCompare
  import opened FloatFormat

  datatype ConstRef = GlobalRef(global: nat) | LocalRef(local: nat)

  /** A tree node; `id` stands for its identity in memory. */
  datatype ConstExpr = ConstExpr(id: nat, ty: Type, kind: Kind)

  datatype Kind =
    | Not(operand: ConstExpr)
    | Neg(operand: ConstExpr)
    | Literal(value: ConstValue)
    | Reference(target: ConstRef)
    | Binary(op: BinaryOp, left: ConstExpr, right: ConstExpr)
    | Compare(cmp: CompareOp, left: ConstExpr, right: ConstExpr)

  datatype EvalError =
    | InvalidLiteral | TypeMismatch | Unsupported | DivideByZero | TakeRemainderByZero
    | UnknownReference(target: ConstRef)

  /** An error and the node that it is reported at. */
  datatype Fault = Fault(error: EvalError, id: nat)

  /** The constants an expression may refer to, and the host's float arithmetic. */
  datatype Host = Host(
    resolve: ConstRef -> Option<(Type, ConstValue)>,
    arithmetic: (BinaryOp, FloatBits, FloatBits) -> FloatBits)

  predicate IsLogical(op: BinaryOp) {
    op.LogicalAnd? || op.LogicalOr?
  }

  predicate IsFloatOp(op: BinaryOp) {
    op.Add? || op.Sub? || op.Mul? || op.Div? || op.Rem?
  }

  predicate Supported(op: BinaryOp, ty: Type) {
    if IsLogical(op) then ty.Bool?
    else if IsFloat(ty) then IsFloatOp(op)
    else IsInteger(ty)
  }

  predicate Comparable(cmp: CompareOp, ty: Type) {
    if ty.Bool? then cmp.Eq? || cmp.Ne? else IsInteger(ty) || IsFloat(ty)
  }

  /** The check of one node, without its children. */
  function LocalError(host: Host, e: ConstExpr): Option<EvalError> {
    match e.kind
    case Literal(value) => if ValidConstant(e.ty, value) then None else Some(InvalidLiteral)
    case Reference(target) =>
      var found := host.resolve(target);
      if found.None? then Some(UnknownReference(target))
      else if found.value.0 != e.ty then Some(TypeMismatch)
      else if !ValidConstant(e.ty, found.value.1) then Some(InvalidLiteral)
      else None
    case Neg(x) =>
      if e.ty != x.ty then Some(TypeMismatch)
      else if !IsInteger(e.ty) && !IsFloat(e.ty) then Some(Unsupported)
      else None
    case Not(x) =>
      if e.ty != x.ty then Some(TypeMismatch)
      else if !IsInteger(e.ty) then Some(Unsupported)
      else None
    case Binary(op, left, right) =>
      if left.ty != right.ty || e.ty != left.ty then Some(TypeMismatch)
      else if !Supported(op, e.ty) then Some(Unsupported)
      else None
    case Compare(cmp, left, right) =>
      if left.ty != right.ty || !e.ty.Bool? then Some(TypeMismatch)
      else if !Comparable(cmp, left.ty) then Some(Unsupported)
      else None
  }

  /** The first fault of a tree in source order, parent before children. */
  function FirstFault(host: Host, e: ConstExpr): Option<Fault> {
    var local := LocalError(host, e);
    if local.Some? then Some(Fault(local.value, e.id))
    else
      match e.kind
      case Neg(x) => FirstFault(host, x)
      case Not(x) => FirstFault(host, x)
      case Binary(_, left, right) =>
        var l := FirstFault(host, left); if l.Some? then l else FirstFault(host, right)
      case Compare(_, left, right) =>
        var l := FirstFault(host, left); if l.Some? then l else FirstFault(host, right)
      case _ => None
  }

  predicate Valid(host: Host, e: ConstExpr) {
    FirstFault(host, e).None?
  }

  function FloatNegate(f: FloatBits): FloatBits {
    match f
    case Half(x) => Half(if x >= 0x8000 then x - 0x8000 else x + 0x8000)
    case Single(x) => Single(if x >= 0x8000_0000 then x - 0x8000_0000 else x + 0x8000_0000)
    case Double(x) =>
      Double(if x >= 0x8000_0000_0000_0000 then x - 0x8000_0000_0000_0000 else x + 0x8000_0000_0000_0000)
  }

  function Negate(ty: Type, v: ConstValue): ConstValue
    requires v.F? || IsInteger(ty)
  {
    if v.F? then F(FloatNegate(v.f)) else IntNegate(ty, v)
  }

  function Lift<T>(r: Result<T, ArithError>): Result<T, EvalError> {
    match r
    case Success(v) => Success(v)
    case Failure(DivisionByZero) => Failure(DivideByZero)
    case Failure(RemainderByZero) => Failure(TakeRemainderByZero)
    case Failure(UnsupportedOperation) => Failure(Unsupported)
  }

  /** `const_bin` on every type. */
  function ApplyBinary(host: Host, op: BinaryOp, ty: Type, l: ConstValue, r: ConstValue): Result<ConstValue, EvalError> {
    if IsFloat(ty) then
      if l.F? && r.F? && IsFloatOp(op) then Success(F(host.arithmetic(op, l.f, r.f)))
      else Failure(Unsupported)
    else if IsInteger(ty) then Lift(IntBinary(op, ty, l, r))
    else Failure(Unsupported)
  }

  function FloatPredicate(cmp: CompareOp): FloatCompare.Predicate {
    match cmp
    case Eq => FloatCompare.Oeq
    case Ne => FloatCompare.Une
    case Lt => FloatCompare.Olt
    case Le => FloatCompare.Ole
    case Gt => FloatCompare.Ogt
    case Ge => FloatCompare.Oge
  }

  function CompareInts(cmp: CompareOp, a: int, b: int): bool {
    match cmp
    case Eq => a == b
    case Ne => a != b
    case Lt => a < b
    case Le => a <= b
    case Gt => a > b
    case Ge => a >= b
  }

  /** `const_cmp`. */
  function ApplyCompare(cmp: CompareOp, ty: Type, l: ConstValue, r: ConstValue): Result<bool, EvalError> {
    if IsFloat(ty) then
      if l.F? && r.F? then
        var holds := FloatCompare.Compare(l.f, r.f, FloatPredicate(cmp));
        if holds.None? then Failure(TypeMismatch) else Success(holds.value)
      else Failure(Unsupported)
    else if ty.Bool? then
      if l.Truth? && r.Truth? && (cmp.Eq? || cmp.Ne?) then Success((l.b == r.b) == cmp.Eq?)
      else Failure(Unsupported)
    else if IsInteger(ty) then
      if IsSigned(ty) && l.I? && r.I? then Success(CompareInts(cmp, l.i, r.i))
      else if !IsSigned(ty) && l.U? && r.U? then Success(CompareInts(cmp, l.u, r.u))
      else Failure(Unsupported)
    else Failure(Unsupported)
  }

  /** Every computed value is checked again before it is used. */
  function Checked(e: ConstExpr, v: ConstValue): (r: Result<ConstValue, Fault>)
    ensures r.Success? ==> ValidConstant(e.ty, r.value) && r.value == v
  {
    if ValidConstant(e.ty, v) then Success(v) else Failure(Fault(InvalidLiteral, e.id))
  }

  /** A logical operator that the left operand does not decide. */
  predicate NeedsRight(op: BinaryOp, left: bool) {
    (op.LogicalAnd? && left) || (op.LogicalOr? && !left)
  }

  /** The value of a node from the values of its operands. */
  function CombineUnary(e: ConstExpr, v: ConstValue): (r: Result<ConstValue, Fault>)
    requires e.kind.Neg? || e.kind.Not?
    requires e.kind.Neg? ==> v.F? || IsInteger(e.ty)
    ensures r.Success? ==> ValidConstant(e.ty, r.value)
  {
    if e.kind.Neg? then Checked(e, Negate(e.ty, v))
    else
      var n := Lift(IntNot(e.ty, v));
      if n.Failure? then Failure(Fault(n.error, e.id)) else Checked(e, n.value)
  }

  function CombineBinary(host: Host, e: ConstExpr, l: ConstValue, r: ConstValue): (v: Result<ConstValue, Fault>)
    requires e.kind.Binary?
    ensures v.Success? ==> ValidConstant(e.ty, v.value)
  {
    var n := ApplyBinary(host, e.kind.op, e.kind.left.ty, l, r);
    if n.Failure? then Failure(Fault(n.error, e.id)) else Checked(e, n.value)
  }

  function CombineCompare(e: ConstExpr, l: ConstValue, r: ConstValue): (v: Result<ConstValue, Fault>)
    requires e.kind.Compare?
    ensures v.Success? ==> ValidConstant(e.ty, v.value)
  {
    var n := ApplyCompare(e.kind.cmp, e.kind.left.ty, l, r);
    if n.Failure? then Failure(Fault(n.error, e.id)) else Checked(e, Truth(n.value))
  }

  /** The meaning of a valid expression. */
  function Eval(host: Host, e: ConstExpr): (r: Result<ConstValue, Fault>)
    requires Valid(host, e)
    ensures r.Success? ==> ValidConstant(e.ty, r.value)
  {
    match e.kind
    case Literal(value) => Checked(e, value)
    case Reference(target) => Checked(e, host.resolve(target).value.1)
    case Neg(x) =>
      var v :- Eval(host, x);
      CombineUnary(e, v)
    case Not(x) =>
      var v :- Eval(host, x);
      CombineUnary(e, v)
    case Binary(op, left, right) =>
      if IsLogical(op) then
        var l :- Eval(host, left);
        if !l.Truth? then Failure(Fault(TypeMismatch, e.id))
        else if NeedsRight(op, l.b) then
          var r :- Eval(host, right);
          if !r.Truth? then Failure(Fault(TypeMismatch, e.id)) else Checked(e, r)
        else Checked(e, l)
      else
        var l :- Eval(host, left);
        var r :- Eval(host, right);
        CombineBinary(host, e, l, r)
    case Compare(_, left, right) =>
      var l :- Eval(host, left);
      var r :- Eval(host, right);
      CombineCompare(e, l, r)
  }

  /** Validate everything first, then evaluate lazily. */
  function Evaluate(host: Host, e: ConstExpr): Result<ConstValue, Fault> {
    var fault := FirstFault(host, e);
    if fault.Some? then Failure(fault.value) else Eval(host, e)
  }

  /** Float arithmetic keeps the width of its operands. */
  ghost predicate KeepsWidth(host: Host) {
    forall op, a, b | FormatOf(a) == FormatOf(b) :: FormatOf(host.arithmetic(op, a, b)) == FormatOf(a)
  }

  predicate IsDivision(e: ConstExpr) {
    e.kind.Binary? && (e.kind.op.Div? || e.kind.op.Rem?) && IsInteger(e.ty)
  }

  ghost predicate IsNode(e: ConstExpr, id: nat, division: ConstExpr) {
    division.id == id && (e == division || match e.kind
      case Neg(x) => IsNode(x, id, division)
      case Not(x) => IsNode(x, id, division)
      case Binary(_, left, right) => IsNode(left, id, division) || IsNode(right, id, division)
      case Compare(_, left, right) => IsNode(left, id, division) || IsNode(right, id, division)
      case _ => false)
  }

  lemma UnarySafe(host: Host, e: ConstExpr, v: ConstValue)
    requires (e.kind.Neg? || e.kind.Not?) && LocalError(host, e).None?
    requires ValidConstant(e.kind.operand.ty, v)
    ensures CombineUnary(e, v).Success?
  {
    hide IntNot, IntNegate, InRange;
    if e.kind.Neg? && IsInteger(e.ty) {
      NegateRefines(e.ty, v);
    } else if e.kind.Not? {
      NotRefines(e.ty, v);
    }
  }

  lemma BinarySafe(host: Host, e: ConstExpr, l: ConstValue, r: ConstValue)
    requires e.kind.Binary? && !IsLogical(e.kind.op) && LocalError(host, e).None? && KeepsWidth(host)
    requires ValidConstant(e.kind.left.ty, l) && ValidConstant(e.kind.right.ty, r)
    ensures var v := CombineBinary(host, e, l, r);
            v.Failure? ==>
              && IsDivision(e) && v.error.id == e.id
              && (v.error.error.DivideByZero? || v.error.error.TakeRemainderByZero?)
  {
    hide IntBinary, InRange;
    if IsInteger(e.ty) {
      BinaryRefines(e.kind.op, e.ty, l, r);
    }
  }

  lemma CompareSafe(host: Host, e: ConstExpr, l: ConstValue, r: ConstValue)
    requires e.kind.Compare? && LocalError(host, e).None?
    requires ValidConstant(e.kind.left.ty, l) && ValidConstant(e.kind.right.ty, r)
    ensures CombineCompare(e, l, r).Success?
  {
    hide FloatCompare.BitOrder, FloatCompare.IsNan, InRange;
  }

  /** Valid trees do not go wrong: the only fault left is an integer division or
      remainder by zero, reported at that operation. */
  lemma {:induction false} ValidTreesDoNotGoWrong(host: Host, e: ConstExpr)
    requires Valid(host, e) && KeepsWidth(host)
    ensures var r := Eval(host, e);
            r.Failure? ==>
              && (r.error.error.DivideByZero? || r.error.error.TakeRemainderByZero?)
              && exists d :: IsDivision(d) && IsNode(e, r.error.id, d)
    decreases e
  {
    hide CombineUnary, CombineBinary, CombineCompare, KeepsWidth, InRange;
    match e.kind
    case Literal(value) =>
    case Reference(target) =>
    case Neg(x) =>
      ValidTreesDoNotGoWrong(host, x);
      if Eval(host, x).Success? {
        UnarySafe(host, e, Eval(host, x).value);
      }
    case Not(x) =>
      ValidTreesDoNotGoWrong(host, x);
      if Eval(host, x).Success? {
        UnarySafe(host, e, Eval(host, x).value);
      }
    case Binary(op, left, right) =>
      ValidTreesDoNotGoWrong(host, left);
      ValidTreesDoNotGoWrong(host, right);
      var l, r := Eval(host, left), Eval(host, right);
      if !IsLogical(op) && l.Success? && r.Success? {
        BinarySafe(host, e, l.value, r.value);
        assert IsNode(e, e.id, e);
      }
    case Compare(_, left, right) =>
      ValidTreesDoNotGoWrong(host, left);
      ValidTreesDoNotGoWrong(host, right);
      var l, r := Eval(host, left), Eval(host, right);
      if l.Success? && r.Success? {
        CompareSafe(host, e, l.value, r.value);
      }
  }
}
