/** IR types and constant values, with the host's 128-bit carriers. */
module IrTypes {

  /** Depth limits above this ceiling are refused or clamped. */
  const MAX_IR_NESTING := 256

  datatype Signature = Signature(params: seq<Type>, ret: Type, sysV: bool, variadic: bool)

  datatype Type =
    | Void | Bool
    | I1 | I8 | I16 | I32 | I64 | I128
    | U1 | U8 | U16 | U32 | U64 | U128
    | F16 | F32 | F64
    | Ptr(inner: Type) | FnPtr(signature: Signature)
    | Array(element: Type, count: nat) | Struct(fields: seq<Type>) | Tuple(fields: seq<Type>)

  const WORD_128 := 0x1_0000_0000_0000_0000_0000_0000_0000_0000
  const HALF_128 := 0x8000_0000_0000_0000_0000_0000_0000_0000

  /** The host's `i128` and `u128`. */
  type Signed = x: int | -HALF_128 <= x < HALF_128
  type Unsigned = x: int | 0 <= x < WORD_128

  type Word16 = x: int | 0 <= x < 0x1_0000
  type Word32 = x: int | 0 <= x < 0x1_0000_0000
  type Word64 = x: int | 0 <= x < 0x1_0000_0000_0000_0000

  /** Exact IEEE storage bits. */
  datatype FloatBits = Half(half: Word16) | Single(single: Word32) | Double(double: Word64)

  datatype ConstValue = Truth(b: bool) | I(i: Signed) | U(u: Unsigned) | F(f: FloatBits)

  /** The width of an integer type, or zero for any other type. */
  function IntBits(ty: Type): (bits: nat)
    ensures bits <= 128
  {
    match ty
    case I1 => 1 case U1 => 1
    case I8 => 8 case U8 => 8
    case I16 => 16 case U16 => 16
    case I32 => 32 case U32 => 32
    case I64 => 64 case U64 => 64
    case I128 => 128 case U128 => 128
    case _ => 0
  }

  predicate IsInteger(ty: Type) {
    IntBits(ty) > 0
  }

  predicate IsSigned(ty: Type) {
    ty.I1? || ty.I8? || ty.I16? || ty.I32? || ty.I64? || ty.I128?
  }

  predicate IsFloat(ty: Type) {
    ty.F16? || ty.F32? || ty.F64?
  }
}
