/** Every integer operation of the constant evaluator returns the unique N-bit
    representative of the exact mathematical result. */
module ConstRefine {
  import opened Bits
  import opened IrTypes
  import opened Wrappers
  import opened ConstArith

  /** `valid_constant`: category and range of a stored value. */
  predicate ValidConstant(ty: Type, value: ConstValue) {
    match value
    case Truth(_) => ty.Bool?
    case F(f) => (ty.F16? && f.Half?) || (ty.F32? && f.Single?) || (ty.F64? && f.Double?)
    case I(i) => IsSigned(ty) && (ty.I128? || InRange(ty, i))
    case U(u) => IsInteger(ty) && !IsSigned(ty) && (ty.U128? || InRange(ty, u))
  }

  function IntOf(value: ConstValue): int
    requires value.I? || value.U?
  {
    if value.I? then value.i else value.u
  }

  predicate IsArithmetic(op: BinaryOp) {
    !op.LogicalAnd? && !op.LogicalOr?
  }

  /** The mathematical result, before it is brought into the type's range. Bit
      operations act on N-bit two's complement words. */
  ghost function Exact(op: BinaryOp, ty: Type, a: int, b: int): int
    requires IsInteger(ty) && IsArithmetic(op) && (op.Div? || op.Rem? ==> b != 0)
  {
    var n := IntBits(ty);
    match op
    case Add => a + b
    case Sub => a - b
    case Mul => a * b
    case BitAnd => And(ToWord(a, n), ToWord(b, n))
    case BitOr => Or(ToWord(a, n), ToWord(b, n))
    case BitXor => Xor(ToWord(a, n), ToWord(b, n))
    case Div => TruncDiv(a, b)
    case Rem => TruncRem(a, b)
    case ShiftLeft => a * Pow2(b % n)
    case ShiftRight => a / Pow2(b % n)
  }

  lemma {:induction false} AndLow(a: nat, b: nat, k: nat)
    ensures And(a, b) % Pow2(k) == And(a % Pow2(k), b % Pow2(k))
  {
    hide And, Pow2;
    if k == 0 {
      LowZero(a, b, And(a, b));
      assert And(0, 0) == 0 by { AndHalves(0, 0); }
    } else {
      AndLow(a / 2, b / 2, k - 1);
      LowHalves(a, k);
      LowHalves(b, k);
      LowHalves(And(a, b), k);
      AndHalves(a, b);
      AndHalves(a % Pow2(k), b % Pow2(k));
    }
  }

  lemma {:induction false} OrLow(a: nat, b: nat, k: nat)
    ensures Or(a, b) % Pow2(k) == Or(a % Pow2(k), b % Pow2(k))
  {
    hide Or, Pow2;
    if k == 0 {
      LowZero(a, b, Or(a, b));
      assert Or(0, 0) == 0 by { OrHalves(0, 0); }
    } else {
      OrLow(a / 2, b / 2, k - 1);
      LowHalves(a, k);
      LowHalves(b, k);
      LowHalves(Or(a, b), k);
      OrHalves(a, b);
      OrHalves(a % Pow2(k), b % Pow2(k));
    }
  }

  lemma {:induction false} XorLow(a: nat, b: nat, k: nat)
    ensures Xor(a, b) % Pow2(k) == Xor(a % Pow2(k), b % Pow2(k))
  {
    hide Xor, Pow2;
    if k == 0 {
      LowZero(a, b, Xor(a, b));
      assert Xor(0, 0) == 0 by { XorHalves(0, 0); }
    } else {
      XorLow(a / 2, b / 2, k - 1);
      LowHalves(a, k);
      LowHalves(b, k);
      LowHalves(Xor(a, b), k);
      XorHalves(a, b);
      XorHalves(a % Pow2(k), b % Pow2(k));
    }
  }

  lemma LowZero(a: nat, b: nat, c: nat)
    ensures a % Pow2(0) == b % Pow2(0) == c % Pow2(0) == 0
  {
  }

  lemma LowHalves(a: nat, k: nat)
    requires k > 0
    ensures (a % Pow2(k)) % 2 == a % 2
    ensures (a % Pow2(k)) / 2 == (a / 2) % Pow2(k - 1)
    ensures a % Pow2(k) == a % 2 + 2 * ((a / 2) % Pow2(k - 1))
  {
    DoubleModulus(a, Pow2(k - 1));
  }

  /** The N-bit word of a value can be read off its 128-bit word. */
  lemma WordOfCarrier(a: int, n: nat)
    requires n <= 128
    ensures AsUnsigned(a) % Pow2(n) == ToWord(a, n)
  {
    hide Pow2;
    AsUnsignedCongruent(a, n);
    SameRemainder(AsUnsigned(a), a, Pow2(n));
  }

  lemma SameRemainder(a: int, b: int, m: int)
    requires m > 0 && Congruent(a, b, m)
    ensures a % m == b % m
  {
    var q := CongruentWitness(a, b, m);
    assert m * (q + b / m) == m * q + m * (b / m);
    DivModUnique(a, m, q + b / m, b % m);
  }

  /** An integer width is a power of two, so it divides 2^N. */
  lemma WidthDivides(ty: Type) returns (d: nat)
    requires IsInteger(ty)
    ensures Pow2(IntBits(ty)) == IntBits(ty) * d
  {
    var n := IntBits(ty);
    var k := if n == 1 then 0 else if n == 8 then 3 else if n == 16 then 4
             else if n == 32 then 5 else if n == 64 then 6 else 7;
    assert Pow2(2) == 4;
    assert Pow2(3) == 8 && Pow2(4) == 16 && Pow2(5) == 32 && Pow2(6) == 64 && Pow2(7) == 128;
    d := Pow2(n - k);
    Pow2Sum(k, n - k);
  }

  /** Shift counts are the operand modulo the width. */
  lemma ShiftCountIs(ty: Type, b: int)
    requires IsInteger(ty)
    ensures ShiftCount(IntBits(ty), AsUnsigned(b)) == b % IntBits(ty)
  {
    hide Pow2;
    var n := IntBits(ty);
    NarrowUnsignedMod(AsUnsigned(b), n);
    WordOfCarrier(b, n);
    var d := WidthDivides(ty);
    LowWordRemainder(b, n, d);
  }

  lemma LowWordRemainder(b: int, n: nat, d: nat)
    requires n > 0 && Pow2(n) == n * d
    ensures ToWord(b, n) % n == b % n
  {
    hide Pow2, Congruent;
    var q := b / Pow2(n);
    MulAssociative(n, d, q);
    CongruentBy(b, ToWord(b, n), n, d * q);
    SameRemainder(b, ToWord(b, n), n);
  }

  /** The host's bit operation on carriers agrees with the N-bit words. */
  lemma HostBits(op: BinaryOp, ty: Type, a: int, b: int)
    requires IsInteger(ty) && (op.BitAnd? || op.BitOr? || op.BitXor?)
    ensures var x, y := AsUnsigned(a), AsUnsigned(b);
            var host := if op.BitAnd? then And(x, y) else if op.BitOr? then Or(x, y) else Xor(x, y);
            Congruent(host, Exact(op, ty, a, b), Pow2(IntBits(ty)))
  {
    hide Pow2, And, Or, Xor, Congruent;
    var n := IntBits(ty);
    var x, y := AsUnsigned(a), AsUnsigned(b);
    WordOfCarrier(a, n);
    WordOfCarrier(b, n);
    AndLow(x, y, n);
    OrLow(x, y, n);
    XorLow(x, y, n);
    var host := if op.BitAnd? then And(x, y) else if op.BitOr? then Or(x, y) else Xor(x, y);
    CongruentBy(host, host % Pow2(n), Pow2(n), host / Pow2(n));
  }

  /** The exact result and the host computation before its 128-bit wrap. */
  ghost function HostExact(op: BinaryOp, ty: Type, a: int, b: int): int
    requires IsInteger(ty) && IsArithmetic(op) && (op.Div? || op.Rem? ==> b != 0)
  {
    match op
    case BitAnd => And(AsUnsigned(a), AsUnsigned(b))
    case BitOr => Or(AsUnsigned(a), AsUnsigned(b))
    case BitXor => Xor(AsUnsigned(a), AsUnsigned(b))
    case _ => Exact(op, ty, a, b)
  }

  lemma HostExactCongruent(op: BinaryOp, ty: Type, a: int, b: int)
    requires IsInteger(ty) && IsArithmetic(op) && (op.Div? || op.Rem? ==> b != 0)
    ensures Congruent(HostExact(op, ty, a, b), Exact(op, ty, a, b), Pow2(IntBits(ty)))
  {
    hide Pow2, And, Or, Xor, Congruent, TruncDiv, TruncRem;
    if op.BitAnd? || op.BitOr? || op.BitXor? {
      HostBits(op, ty, a, b);
    } else {
      CongruentBy(Exact(op, ty, a, b), Exact(op, ty, a, b), Pow2(IntBits(ty)), 0);
    }
  }

  lemma SignedHost(op: BinaryOp, ty: Type, a: Signed, b: Signed)
    requires IsInteger(ty) && IsArithmetic(op) && (op.Div? || op.Rem? ==> b != 0)
    ensures HostSigned(op, IntBits(ty), a, b) == Success(WrapSigned(HostExact(op, ty, a, b)))
  {
    hide Pow2, And, Or, Xor, TruncDiv, TruncRem, WrapSigned;
    ShiftCountIs(ty, b);
  }

  lemma UnsignedHost(op: BinaryOp, ty: Type, a: Unsigned, b: Unsigned)
    requires IsInteger(ty) && IsArithmetic(op) && (op.Div? || op.Rem? ==> b != 0)
    ensures HostUnsigned(op, IntBits(ty), a, b) == Success(AsUnsigned(HostExact(op, ty, a, b)))
  {
    hide Pow2, And, Or, Xor, TruncDiv, TruncRem, AsUnsigned;
    ShiftCountIs(ty, b);
    UnsignedStays(a);
    UnsignedStays(b);
    if b != 0 {
      UnsignedDivision(a, b);
    }
  }

  lemma UnsignedStays(a: Unsigned)
    ensures AsUnsigned(a) == a
  {
  }

  lemma UnsignedDivision(a: Unsigned, b: Unsigned)
    requires b != 0
    ensures TruncDiv(a, b) == a / b && TruncRem(a, b) == a % b
  {
    assert a == b * (a / b) + a % b;
  }

  /** `const_bin` returns the representative of the exact result, for every
      integer type and every pair of valid operands. */
  lemma BinaryRefines(op: BinaryOp, ty: Type, l: ConstValue, r: ConstValue)
    requires IsInteger(ty) && IsArithmetic(op) && ValidConstant(ty, l) && ValidConstant(ty, r)
    ensures var result := IntBinary(op, ty, l, r);
            if op.Div? && IntOf(r) == 0 then result == Failure(DivisionByZero)
            else if op.Rem? && IntOf(r) == 0 then result == Failure(RemainderByZero)
            else
              && result.Success? && ValidConstant(ty, result.value)
              && Represents(ty, IntOf(result.value), Exact(op, ty, IntOf(l), IntOf(r)))
  {
    hide Pow2, And, Or, Xor, TruncDiv, TruncRem, Congruent, WrapSigned, AsUnsigned, HostExact,
         NarrowSigned, NarrowUnsigned, Exact;
    var n := IntBits(ty);
    var a, b := IntOf(l), IntOf(r);
    if !((op.Div? || op.Rem?) && b == 0) {
      var exact := HostExact(op, ty, a, b);
      HostExactCongruent(op, ty, a, b);
      if IsSigned(ty) {
        SignedHost(op, ty, a, b);
        NarrowSignedValue(WrapSigned(exact), n);
        WrapSignedCongruent(exact, n);
        Chain3(NarrowSigned(WrapSigned(exact), n), WrapSigned(exact), exact, Exact(op, ty, a, b), Pow2(n));
      } else {
        UnsignedHost(op, ty, a, b);
        UnsignedNarrow(AsUnsigned(exact), n);
        AsUnsignedCongruent(exact, n);
        Chain3(NarrowUnsigned(AsUnsigned(exact), n), AsUnsigned(exact), exact, Exact(op, ty, a, b), Pow2(n));
      }
    }
  }

  lemma Chain3(a: int, b: int, c: int, d: int, m: int)
    requires m > 0 && Congruent(a, b, m) && Congruent(b, c, m) && Congruent(c, d, m)
    ensures Congruent(a, d, m)
  {
    hide Congruent;
    CongruentTrans(a, b, c, m);
    CongruentTrans(a, c, d, m);
  }

  lemma UnsignedNarrow(v: Unsigned, n: nat)
    requires 0 < n <= 128
    ensures NarrowUnsigned(v, n) < Pow2(n) && Congruent(NarrowUnsigned(v, n), v, Pow2(n))
  {
    hide Pow2;
    NarrowUnsignedMod(v, n);
    RemainderCongruent(v, Pow2(n));
  }

  /** `const_not` returns the representative of `-1 - x`. */
  lemma NotRefines(ty: Type, v: ConstValue)
    requires IsInteger(ty) && ValidConstant(ty, v)
    ensures var result := IntNot(ty, v);
            && result.Success? && ValidConstant(ty, result.value)
            && Represents(ty, IntOf(result.value), -1 - IntOf(v))
  {
    hide Pow2, Congruent, NarrowSigned, NarrowUnsigned;
    var n := IntBits(ty);
    if IsSigned(ty) {
      NarrowSignedValue(-1 - v.i, n);
    } else {
      var word := Complement(v.u);
      UnsignedNarrow(word, n);
      WrapCongruent(-1 - v.u, word, -1, n);
      CongruentTrans(NarrowUnsigned(word, n), word, -1 - v.u, Pow2(n));
    }
  }

  /** Integer negation returns the representative of `-x`. */
  lemma NegateRefines(ty: Type, v: ConstValue)
    requires IsInteger(ty) && ValidConstant(ty, v)
    ensures var result := IntNegate(ty, v);
            ValidConstant(ty, result) && Represents(ty, IntOf(result), -IntOf(v))
  {
    hide Pow2, Congruent, NarrowSigned, NarrowUnsigned, AsUnsigned, AsSigned;
    var n := IntBits(ty);
    var x := IntOf(v);
    var payload: Unsigned := if v.I? then AsUnsigned(v.i) else v.u;
    NarrowUnsignedFits(payload, n);
    var raw: int := NarrowUnsigned(payload, n);
    UnsignedNarrow(payload, n);
    if v.I? {
      AsUnsignedCongruent(x, n);
    } else {
      CongruentBy(payload, x, Pow2(n), 0);
    }
    CongruentTrans(raw, payload, x, Pow2(n));
    NegateCongruent(raw, x, Pow2(n));
    var minus: int := -raw;
    var word := AsUnsigned(minus);
    AsUnsignedCongruent(minus, n);
    if IsSigned(ty) {
      WrapSignedCongruent(minus, n);
      NarrowSignedValue(AsSigned(word), n);
      Chain3(NarrowSigned(AsSigned(word), n), AsSigned(word), minus, -x, Pow2(n));
    } else {
      UnsignedNarrow(word, n);
      Chain3(NarrowUnsigned(word, n), word, minus, -x, Pow2(n));
    }
  }

  lemma NegateCongruent(a: int, b: int, m: int)
    requires m > 0 && Congruent(a, b, m)
    ensures Congruent(-a, -b, m)
  {
    var q := CongruentWitness(a, b, m);
    assert m * -q == -(m * q);
    CongruentBy(-a, -b, m, -q);
  }

  /** The smallest value divided by -1 wraps to itself, with remainder zero. */
  lemma MinimumByMinusOne(ty: Type)
    requires IsInteger(ty) && IsSigned(ty)
    ensures var min := -(Pow2(IntBits(ty) - 1) as int);
            && -HALF_128 <= min
            && IntBinary(Div, ty, I(min), I(-1)) == Success(I(min))
            && IntBinary(Rem, ty, I(min), I(-1)) == Success(I(0))
  {
    hide Pow2, Congruent, Represents, HostSigned, NarrowSigned;
    var n := IntBits(ty);
    Pow2At128();
    Pow2Monotone(n - 1, 127);
    HalvesOf(n);
    var min: Signed := -(Pow2(n - 1) as int);
    BinaryRefines(Div, ty, I(min), I(-1));
    BinaryRefines(Rem, ty, I(min), I(-1));
    CongruentBy(min, Exact(Div, ty, min, -1), Pow2(n), -1);
    CongruentBy(0, Exact(Rem, ty, min, -1), Pow2(n), 0);
    MinimumRepresents(ty, min);
    RepresentsUnique(ty, min, IntBinary(Div, ty, I(min), I(-1)).value.i, Exact(Div, ty, min, -1));
    RepresentsUnique(ty, 0, IntBinary(Rem, ty, I(min), I(-1)).value.i, Exact(Rem, ty, min, -1));
  }

  lemma MinimumRepresents(ty: Type, min: Signed)
    requires IsInteger(ty) && IsSigned(ty) && min == -(Pow2(IntBits(ty) - 1) as int)
    requires Congruent(min, Exact(Div, ty, min, -1), Pow2(IntBits(ty)))
    requires Congruent(0, Exact(Rem, ty, min, -1), Pow2(IntBits(ty)))
    ensures Represents(ty, min, Exact(Div, ty, min, -1))
    ensures Represents(ty, 0, Exact(Rem, ty, min, -1))
  {
    hide Pow2;
  }
}
