/** The types of constant expressions: what validation accepts, as typing rules. */
module ConstTyping {
  import opened Bits
  import opened Wrappers
  import opened IrTypes
  import opened ConstArith
  import opened ConstRefine
  import opened ConstEval

  /** A value of a type. */
  ghost predicate Inhabits(v: ConstValue, ty: Type) {
    match ty
    case Bool => v.Truth?
    case I1 => v.I? && -1 <= v.i <= 0
    case I8 => v.I? && -0x80 <= v.i <= 0x7f
    case I16 => v.I? && -0x8000 <= v.i <= 0x7fff
    case I32 => v.I? && -0x8000_0000 <= v.i <= 0x7fff_ffff
    case I64 => v.I? && -0x8000_0000_0000_0000 <= v.i <= 0x7fff_ffff_ffff_ffff
    case I128 => v.I?
    case U1 => v.U? && v.u <= 1
    case U8 => v.U? && v.u <= 0xff
    case U16 => v.U? && v.u <= 0xffff
    case U32 => v.U? && v.u <= 0xffff_ffff
    case U64 => v.U? && v.u <= 0xffff_ffff_ffff_ffff
    case U128 => v.U?
    case F16 => v.F? && v.f.Half?
    case F32 => v.F? && v.f.Single?
    case F64 => v.F? && v.f.Double?
    case _ => false
  }

  lemma InhabitsIff(v: ConstValue, ty: Type)
    ensures ValidConstant(ty, v) <==> Inhabits(v, ty)
  {
    hide Pow2;
    WidthPowers();
  }

  lemma WidthPowers()
    ensures Pow2(0) == 1 && Pow2(1) == 2 && Pow2(7) == 0x80 && Pow2(8) == 0x100
    ensures Pow2(15) == 0x8000 && Pow2(16) == 0x1_0000 && Pow2(31) == 0x8000_0000 && Pow2(32) == 0x1_0000_0000
    ensures Pow2(63) == 0x8000_0000_0000_0000 && Pow2(64) == 0x1_0000_0000_0000_0000
  {
    assert Pow2(7) == 0x80;
    Pow2Sum(8, 7);
    assert Pow2(16) == 2 * Pow2(15);
    Pow2At32();
    Pow2At64();
    assert Pow2(32) == 2 * Pow2(31) && Pow2(64) == 2 * Pow2(63);
  }

  predicate IsNumeric(ty: Type) {
    ty in {I1, I8, I16, I32, I64, I128, U1, U8, U16, U32, U64, U128, F16, F32, F64}
  }

  predicate IsWhole(ty: Type) {
    ty in {I1, I8, I16, I32, I64, I128, U1, U8, U16, U32, U64, U128}
  }

  lemma NumericIff(ty: Type)
    ensures IsInteger(ty) <==> IsWhole(ty)
    ensures IsInteger(ty) || IsFloat(ty) <==> IsNumeric(ty)
  {
  }

  /** The typing rules. */
  ghost predicate HasType(host: Host, e: ConstExpr, ty: Type) {
    && e.ty == ty
    && match e.kind
       case Literal(v) => Inhabits(v, ty)
       case Reference(target) => exists v :: host.resolve(target) == Some((ty, v)) && Inhabits(v, ty)
       case Not(x) => IsWhole(ty) && HasType(host, x, ty)
       case Neg(x) => IsNumeric(ty) && HasType(host, x, ty)
       case Binary(op, l, r) =>
         && HasType(host, l, ty) && HasType(host, r, ty)
         && (match op
             case LogicalAnd => ty == Bool
             case LogicalOr => ty == Bool
             case Add => IsNumeric(ty)
             case Sub => IsNumeric(ty)
             case Mul => IsNumeric(ty)
             case Div => IsNumeric(ty)
             case Rem => IsNumeric(ty)
             case BitAnd => IsWhole(ty)
             case BitOr => IsWhole(ty)
             case BitXor => IsWhole(ty)
             case ShiftLeft => IsWhole(ty)
             case ShiftRight => IsWhole(ty))
       case Compare(cmp, l, r) =>
         && ty == Bool
         && HasType(host, l, l.ty) && HasType(host, r, l.ty)
         && (IsNumeric(l.ty) || (l.ty == Bool && cmp in {Eq, Ne}))
  }

  /** The operands of a node have the types that their annotations say. */
  ghost predicate OperandsTyped(host: Host, e: ConstExpr) {
    match e.kind
    case Not(x) => HasType(host, x, x.ty)
    case Neg(x) => HasType(host, x, x.ty)
    case Binary(_, l, r) => HasType(host, l, l.ty) && HasType(host, r, r.ty)
    case Compare(_, l, r) => HasType(host, l, l.ty) && HasType(host, r, r.ty)
    case _ => true
  }

  /** The check of a node is its typing rule, given typed operands. */
  lemma NodeRule(host: Host, e: ConstExpr)
    ensures LocalError(host, e).None? && OperandsTyped(host, e) <==> HasType(host, e, e.ty)
  {
    hide ValidConstant, IsInteger, IsFloat, IsNumeric, IsWhole, Inhabits;
    NumericIff(e.ty);
    match e.kind
    case Literal(v) => InhabitsIff(v, e.ty);
    case Reference(target) =>
      if host.resolve(target).Some? {
        InhabitsIff(host.resolve(target).value.1, e.ty);
      }
    case Compare(cmp, l, r) =>
      NumericIff(l.ty);
      NotNumericBool(l.ty);
    case Binary(op, l, r) => NotNumericBool(e.ty);
    case Not(x) =>
    case Neg(x) =>
  }

  lemma NotNumericBool(ty: Type)
    ensures ty.Bool? ==> !IsNumeric(ty) && !IsWhole(ty) && !IsFloat(ty) && !IsInteger(ty)
    ensures IsFloat(ty) ==> !IsWhole(ty) && IsNumeric(ty)
    ensures IsWhole(ty) ==> IsNumeric(ty) && !IsFloat(ty)
  {
  }

  /** Validation accepts exactly the well-typed trees. */
  lemma {:induction false} ValidIff(host: Host, e: ConstExpr)
    ensures Valid(host, e) <==> HasType(host, e, e.ty)
  {
    hide LocalError;
    NodeRule(host, e);
    match e.kind
    case Not(x) => ValidIff(host, x);
    case Neg(x) => ValidIff(host, x);
    case Binary(_, l, r) =>
      ValidIff(host, l);
      ValidIff(host, r);
    case Compare(_, l, r) =>
      ValidIff(host, l);
      ValidIff(host, r);
    case Literal(_) =>
    case Reference(_) =>
  }

  /** A valid tree evaluates to a value of its type, or to the division by zero that it meets. */
  lemma TypeSound(host: Host, e: ConstExpr)
    requires HasType(host, e, e.ty) && KeepsWidth(host)
    ensures match Evaluate(host, e)
      case Success(v) => Inhabits(v, e.ty)
      case Failure(fault) => fault.error in {DivideByZero, TakeRemainderByZero}
  {
    hide HasType, Inhabits, KeepsWidth, ValidConstant;
    ValidIff(host, e);
    ValidTreesDoNotGoWrong(host, e);
    if Evaluate(host, e).Success? {
      InhabitsIff(Evaluate(host, e).value, e.ty);
    }
  }
}
