/**
  Constant arithmetic: N-bit operations carried out on 128-bit host integers
  and narrowed by masking and sign extension.
 */
module ConstArith {
  import opened Bits
  import opened IrTypes
  import opened Wrappers

  datatype BinaryOp =
    | Add | Sub | Mul | BitAnd | BitOr | BitXor | Div | Rem
    | ShiftLeft | ShiftRight | LogicalAnd | LogicalOr

  datatype CompareOp = Eq | Ne | Lt | Le | Gt | Ge

  datatype ArithError = DivisionByZero | RemainderByZero | UnsupportedOperation

  /** `value as u128` and `word as i128`. */
  function AsUnsigned(value: int): Unsigned {
    value % WORD_128
  }

  function AsSigned(word: Unsigned): Signed {
    if word >= HALF_128 then word - WORD_128 else word
  }

  /** The host's wrapping result of an exact signed value. */
  function WrapSigned(exact: int): Signed {
    AsSigned(AsUnsigned(exact))
  }

  function Mask(bits: nat): (m: Unsigned)
    requires bits <= 128
    ensures m == Pow2(bits) - 1
  {
    Pow2At128();
    Pow2Monotone(bits, 128);
    Pow2(bits) - 1
  }

  /** `!word` on the unsigned carrier. */
  function Complement(word: Unsigned): Unsigned {
    WORD_128 - 1 - word
  }

  /** `wrap_u`: keep the low bits. */
  function NarrowUnsigned(v: Unsigned, bits: nat): (r: nat)
    requires 0 < bits <= 128
  {
    if bits >= 128 then v else And(v, Mask(bits))
  }

  /** `wrap_i`: keep the low bits and extend the sign through the rest. */
  function NarrowSigned(v: Signed, bits: nat): (r: int)
    requires 0 < bits <= 128
  {
    if bits >= 128 then v
    else
      var u := And(AsUnsigned(v), Mask(bits));
      if And(u, Pow2(bits - 1)) != 0 then
        var word := Or(u, Complement(Mask(bits)));
        if word >= HALF_128 then word - WORD_128 else word
      else if u >= HALF_128 then u - WORD_128 else u
  }

  /** Division truncates towards zero, the remainder takes the dividend's sign. */
  function TruncDiv(a: int, b: int): int
    requires b != 0
  {
    var q := (if a < 0 then -a else a) / (if b < 0 then -b else b);
    if (a < 0) == (b < 0) then q else -q
  }

  function TruncRem(a: int, b: int): int
    requires b != 0
  {
    a - b * TruncDiv(a, b)
  }

  /** `x` lies in the range of an integer type. */
  predicate InRange(ty: Type, x: int)
    requires IsInteger(ty)
  {
    if IsSigned(ty) then -(Pow2(IntBits(ty) - 1) as int) <= x < Pow2(IntBits(ty) - 1)
    else 0 <= x < Pow2(IntBits(ty))
  }

  ghost predicate Congruent(a: int, b: int, m: int)
    requires m > 0
  {
    (a - b) % m == 0
  }

  /** `x` is the value of type `ty` that is congruent to an exact result. */
  ghost predicate Represents(ty: Type, x: int, exact: int)
    requires IsInteger(ty)
  {
    InRange(ty, x) && Congruent(x, exact, Pow2(IntBits(ty)))
  }

  lemma CongruentBy(a: int, b: int, m: int, q: int)
    requires m > 0 && a - b == m * q
    ensures Congruent(a, b, m)
  {
    DivModUnique(a - b, m, q, 0);
  }

  lemma CongruentWitness(a: int, b: int, m: int) returns (q: int)
    requires m > 0 && Congruent(a, b, m)
    ensures a - b == m * q
  {
    q := (a - b) / m;
  }

  lemma CongruentTrans(a: int, b: int, c: int, m: int)
    requires m > 0 && Congruent(a, b, m) && Congruent(b, c, m)
    ensures Congruent(a, c, m)
  {
    var p := CongruentWitness(a, b, m);
    var q := CongruentWitness(b, c, m);
    assert m * (p + q) == m * p + m * q;
    CongruentBy(a, c, m, p + q);
  }

  /** The representative of an exact result is unique. */
  lemma RepresentsUnique(ty: Type, x: int, y: int, exact: int)
    requires IsInteger(ty) && Represents(ty, x, exact) && Represents(ty, y, exact)
    ensures x == y
  {
    var m := Pow2(IntBits(ty));
    assert m == 2 * Pow2(IntBits(ty) - 1);
    var p := CongruentWitness(x, exact, m);
    var q := CongruentWitness(y, exact, m);
    assert m * (p - q) == m * p - m * q;
    MultipleGap(m, p - q);
  }

  lemma Pow2At128()
    ensures Pow2(128) == WORD_128 && Pow2(127) == HALF_128
  {
    hide Pow2;
    Pow2At64();
    Pow2Sum(64, 64);
    Pow2Half();
  }

  lemma Pow2Half()
    ensures Pow2(128) == 2 * Pow2(127)
  {
  }

  /** The 128-bit wrap of a value is congruent to it modulo every smaller power. */
  lemma WrapCongruent(exact: int, word: int, q: int, bits: nat)
    requires bits <= 128 && word == exact - WORD_128 * q
    ensures Congruent(word, exact, Pow2(bits))
  {
    hide Pow2;
    Pow2At128();
    Pow2Sum(bits, 128 - bits);
    MulAssociative(Pow2(bits), Pow2(128 - bits), -q);
    CongruentBy(word, exact, Pow2(bits), Pow2(128 - bits) * -q);
  }

  lemma AsUnsignedCongruent(exact: int, bits: nat)
    requires bits <= 128
    ensures Congruent(AsUnsigned(exact), exact, Pow2(bits))
  {
    WrapCongruent(exact, AsUnsigned(exact), exact / WORD_128, bits);
  }

  lemma WrapSignedCongruent(exact: int, bits: nat)
    requires bits <= 128
    ensures Congruent(WrapSigned(exact), exact, Pow2(bits))
  {
    var q := exact / WORD_128;
    WrapCongruent(exact, WrapSigned(exact), if AsUnsigned(exact) >= HALF_128 then q + 1 else q, bits);
  }

  lemma NarrowUnsignedMod(v: Unsigned, bits: nat)
    requires 0 < bits <= 128
    ensures NarrowUnsigned(v, bits) == v % Pow2(bits)
  {
    hide Pow2;
    if bits < 128 {
      AndMask(v, bits);
    } else {
      Pow2At128();
    }
  }

  /** Testing the sign bit of an N-bit word. */
  lemma {:induction false} SignBit(u: nat, k: nat)
    requires u < Pow2(k + 1)
    ensures And(u, Pow2(k)) == if u >= Pow2(k) then Pow2(k) else 0
  {
    if k == 0 {
      assert And(u, 1) == u % 2 by { AndMask(u, 1); }
    } else if u > 0 {
      SignBit(u / 2, k - 1);
      assert Pow2(k) / 2 == Pow2(k - 1) && Pow2(k) % 2 == 0;
    }
  }

  /** Setting all bits above the low `bits` ones adds them. */
  lemma ExtendSign(u: nat, bits: nat)
    requires bits <= 128 && u < Pow2(bits)
    ensures Or(u, Complement(Mask(bits))) == u + WORD_128 - Pow2(bits)
  {
    hide Pow2, And, Or;
    Pow2At128();
    Pow2Sum(bits, 128 - bits);
    var high := WORD_128 - Pow2(bits);
    assert high == Pow2(bits) * (Pow2(128 - bits) - 1);
    AndLowHigh(u, Pow2(128 - bits) - 1, bits);
    OrDisjoint(u, high);
  }

  /** Narrowing a signed carrier yields the N-bit signed representative. */
  lemma NarrowSignedValue(v: Signed, bits: nat)
    requires 0 < bits <= 128
    ensures -(Pow2(bits - 1) as int) <= NarrowSigned(v, bits) < Pow2(bits - 1)
    ensures Congruent(NarrowSigned(v, bits), v, Pow2(bits))
  {
    hide And, Or, Pow2, Congruent;
    Pow2At128();
    if bits == 128 {
      CongruentBy(v, v, Pow2(bits), 0);
    } else {
      HalvesOf(bits);
      AndMask(AsUnsigned(v), bits);
      var u := AsUnsigned(v) % Pow2(bits);
      Pow2Monotone(bits, 127);
      SignBit(u, bits - 1);
      ExtendSign(u, bits);
      RemainderCongruent(AsUnsigned(v), Pow2(bits));
      AsUnsignedCongruent(v, bits);
      CongruentTrans(u, AsUnsigned(v), v, Pow2(bits));
      if u >= Pow2(bits - 1) {
        CongruentBy(u - Pow2(bits), u, Pow2(bits), -1);
        CongruentTrans(u - Pow2(bits), u, v, Pow2(bits));
      }
    }
  }

  lemma HalvesOf(bits: nat)
    requires bits > 0
    ensures Pow2(bits) == 2 * Pow2(bits - 1)
  {
  }

  lemma RemainderCongruent(a: int, m: int)
    requires m > 0
    ensures Congruent(a % m, a, m)
  {
    CongruentBy(a % m, a, m, -(a / m));
  }

  /** The count of a shift: the unsigned N-bit pattern, modulo N. */
  function ShiftCount(bits: nat, raw: Unsigned): (n: nat)
    requires 0 < bits <= 128
    ensures n < bits
  {
    NarrowUnsigned(raw, bits) % bits
  }

  /** The host operation on `i128` operands, before narrowing. */
  function HostSigned(op: BinaryOp, bits: nat, a: Signed, b: Signed): Result<Signed, ArithError>
    requires 0 < bits <= 128
  {
    match op
    case Add => Success(WrapSigned(a + b))
    case Sub => Success(WrapSigned(a - b))
    case Mul => Success(WrapSigned(a * b))
    case BitAnd => Success(WrapSigned(And(AsUnsigned(a), AsUnsigned(b))))
    case BitOr => Success(WrapSigned(Or(AsUnsigned(a), AsUnsigned(b))))
    case BitXor => Success(WrapSigned(Xor(AsUnsigned(a), AsUnsigned(b))))
    case Div => if b == 0 then Failure(DivisionByZero) else Success(WrapSigned(TruncDiv(a, b)))
    case Rem => if b == 0 then Failure(RemainderByZero) else Success(WrapSigned(TruncRem(a, b)))
    case ShiftLeft => Success(WrapSigned(a * Pow2(ShiftCount(bits, AsUnsigned(b)))))
    case ShiftRight => Success(WrapSigned(a / Pow2(ShiftCount(bits, AsUnsigned(b)))))
    case _ => Failure(UnsupportedOperation)
  }

  /** The host operation on `u128` operands, before narrowing. */
  function HostUnsigned(op: BinaryOp, bits: nat, a: Unsigned, b: Unsigned): Result<Unsigned, ArithError>
    requires 0 < bits <= 128
  {
    match op
    case Add => Success(AsUnsigned(a + b))
    case Sub => Success(AsUnsigned(a - b))
    case Mul => Success(AsUnsigned(a * b))
    case BitAnd => Success(AsUnsigned(And(a, b)))
    case BitOr => Success(AsUnsigned(Or(a, b)))
    case BitXor => Success(AsUnsigned(Xor(a, b)))
    case Div => if b == 0 then Failure(DivisionByZero) else Success(AsUnsigned(a / b))
    case Rem => if b == 0 then Failure(RemainderByZero) else Success(AsUnsigned(a % b))
    case ShiftLeft => Success(AsUnsigned(a * Pow2(ShiftCount(bits, b))))
    case ShiftRight => Success(AsUnsigned(a / Pow2(ShiftCount(bits, b))))
    case _ => Failure(UnsupportedOperation)
  }

  /** `const_bin` on an integer type. */
  function IntBinary(op: BinaryOp, ty: Type, l: ConstValue, r: ConstValue): Result<ConstValue, ArithError>
    requires IsInteger(ty)
  {
    if IsSigned(ty) then
      if l.I? && r.I? then
        var host := HostSigned(op, IntBits(ty), l.i, r.i);
        if host.Failure? then Failure(host.error)
        else NarrowSignedFits(host.value, IntBits(ty)); Success(I(NarrowSigned(host.value, IntBits(ty))))
      else Failure(UnsupportedOperation)
    else if l.U? && r.U? then
      var host := HostUnsigned(op, IntBits(ty), l.u, r.u);
      if host.Failure? then Failure(host.error)
      else NarrowUnsignedFits(host.value, IntBits(ty)); Success(U(NarrowUnsigned(host.value, IntBits(ty))))
    else Failure(UnsupportedOperation)
  }

  /** `const_not`. */
  function IntNot(ty: Type, value: ConstValue): Result<ConstValue, ArithError> {
    if value.I? && IsSigned(ty) then
      NarrowSignedFits(-1 - value.i, IntBits(ty));
      Success(I(NarrowSigned(-1 - value.i, IntBits(ty))))
    else if value.U? && IsInteger(ty) then
      NarrowUnsignedFits(Complement(value.u), IntBits(ty));
      Success(U(NarrowUnsigned(Complement(value.u), IntBits(ty))))
    else Failure(UnsupportedOperation)
  }

  /** `pack(ty, 0 - raw(value))`. */
  function IntNegate(ty: Type, value: ConstValue): ConstValue
    requires IsInteger(ty) && !value.F?
  {
    var bits := IntBits(ty);
    var payload: Unsigned :=
      match value case I(i) => AsUnsigned(i) case U(u) => u case Truth(b) => if b then 1 else 0;
    NarrowUnsignedFits(payload, bits);
    var raw := NarrowUnsigned(payload, bits);
    var word := AsUnsigned(0 - raw);
    NarrowUnsignedFits(word, bits);
    NarrowSignedFits(AsSigned(word), bits);
    if IsSigned(ty) then I(NarrowSigned(AsSigned(word), bits)) else U(NarrowUnsigned(word, bits))
  }

  lemma NarrowSignedFits(v: Signed, bits: nat)
    requires 0 < bits <= 128
    ensures -HALF_128 <= NarrowSigned(v, bits) < HALF_128
  {
    hide Pow2;
    NarrowSignedValue(v, bits);
    Pow2At128();
    Pow2Monotone(bits - 1, 127);
  }

  lemma NarrowUnsignedFits(v: Unsigned, bits: nat)
    requires 0 < bits <= 128
    ensures NarrowUnsigned(v, bits) < WORD_128
  {
    hide Pow2;
    NarrowUnsignedMod(v, bits);
    Pow2At128();
    Pow2Monotone(bits, 128);
  }
}
