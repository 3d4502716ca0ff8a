/** Immediate and branch fields of fixed-width instructions. */
module FixedFields {
  import opened Bits
  import opened Wrappers
  import opened ConstArith
  import opened ConstRefine
  import opened AsmSections

  const I64_MIN := -0x8000_0000_0000_0000
  const I64_MAX := 0x7fff_ffff_ffff_ffff

  /** The low `bits` of a value, as the field of an instruction word. */
  function Field(value: int, bits: nat): (f: nat)
    requires bits <= 32
  {
    And(value % 0x1_0000_0000, Pow2(bits) - 1)
  }

  /** `signed`: an immediate that fits a signed field. */
  function SignedField(value: int, bits: int): Option<nat> {
    if !(1 <= bits <= 32) then None
    else if !(-(Pow2(bits - 1) as int) <= value < Pow2(bits - 1)) then None
    else Some(Field(value, bits))
  }

  /** `displacement`: a scaled branch distance that fits a signed field. */
  function Displacement(value: int, bits: int, alignment: int): Option<nat> {
    if !(1 <= bits <= 32) || alignment <= 0 then None
    else if TruncRem(value, alignment) != 0 then None
    else SignedField(TruncDiv(value, alignment), bits)
  }

  lemma FieldIsWord(value: int, bits: nat)
    requires bits <= 32
    ensures Field(value, bits) == ToWord(value, bits)
  {
    hide Pow2, Congruent;
    var word := value % 0x1_0000_0000;
    AndMask(word, bits);
    Pow2At32();
    Pow2Sum(bits, 32 - bits);
    MulAssociative(Pow2(bits), Pow2(32 - bits), -(value / 0x1_0000_0000));
    CongruentBy(word, value, Pow2(bits), Pow2(32 - bits) * -(value / 0x1_0000_0000));
    SameRemainder(word, value, Pow2(bits));
  }

  /** A signed field is accepted exactly when sign extension gives the value back. */
  lemma SignedFieldDecodes(value: int, bits: int)
    ensures SignedField(value, bits).Some? <==>
      1 <= bits <= 32 && -(Pow2(bits - 1) as int) <= value < Pow2(bits - 1)
    ensures SignedField(value, bits).Some? <==>
      1 <= bits <= 32 && FromWord(ToWord(value, bits), bits) == value
    ensures SignedField(value, bits).Some? ==>
      && SignedField(value, bits).value < Pow2(bits)
      && FromWord(SignedField(value, bits).value, bits) == value
  {
    hide Pow2, FromWord, ToWord, Field;
    if 1 <= bits <= 32 {
      SignExtendTruncate(value, bits);
      FieldIsWord(value, bits);
    }
  }

  lemma TruncExact(value: int, alignment: int)
    requires alignment > 0
    ensures TruncRem(value, alignment) == 0 <==> value % alignment == 0
    ensures value % alignment == 0 ==> value == alignment * TruncDiv(value, alignment)
  {
    var q := (if value < 0 then -value else value) / alignment;
    var r := (if value < 0 then -value else value) % alignment;
    assert (if value < 0 then -value else value) == alignment * q + r;
    assert alignment * -q == -(alignment * q);
    assert TruncDiv(value, alignment) == if value < 0 then -q else q;
    if value < 0 {
      if r == 0 {
        DivModUnique(value, alignment, -q, 0);
      } else {
        assert alignment * (-q - 1) == -(alignment * q) - alignment;
        DivModUnique(value, alignment, -q - 1, alignment - r);
      }
    }
  }

  /** A displacement is accepted exactly when it is aligned and in the signed
      scaled range, and then the field, sign extended and scaled, gives it back. */
  lemma DisplacementDecodes(value: int, bits: int, alignment: int)
    ensures Displacement(value, bits, alignment).Some? <==>
      && 1 <= bits <= 32 && alignment > 0 && value % alignment == 0
      && -(alignment * Pow2(bits - 1)) <= value < alignment * Pow2(bits - 1)
    ensures var f := Displacement(value, bits, alignment);
      f.Some? ==> f.value < Pow2(bits) && alignment * FromWord(f.value, bits) == value
  {
    if 1 <= bits <= 32 && alignment > 0 {
      hide TruncDiv, TruncRem, FromWord, ToWord, Field, Pow2, SignedField;
      var half: int := Pow2(bits - 1);
      NegateProduct(alignment, half);
      TruncExact(value, alignment);
      var scaled := TruncDiv(value, alignment);
      SignedFieldDecodes(scaled, bits);
      if value % alignment == 0 {
        ScaleOrder(-half, scaled, alignment);
        ScaleOrder(scaled, half, alignment);
      }
    }
  }

  lemma NegateProduct(a: int, b: int)
    ensures a * -b == -(a * b)
  {
  }

  lemma ScaleOrder(a: int, b: int, m: int)
    requires m > 0
    ensures a <= b <==> m * a <= m * b
    ensures a < b <==> m * a < m * b
  {
    assert m * (b - a) == m * b - m * a;
    MultipleGap(m, b - a);
    if a < b {
      assert m * (b - a) > 0;
    } else if a > b {
      assert m * (a - b) > 0 && m * (a - b) == m * a - m * b;
    }
  }
}
