/**
  The numbers that IEEE storage bits denote (IEEE 754-2019, section 3.4). All
  finite values of one format are multiples of its smallest subnormal, so a
  finite number is an integer in units of that subnormal.
 */
module FloatFormat {
  import opened Bits
  import opened IrTypes

  datatype Format = Format(exponentBits: nat, fractionBits: nat) {
    function Width(): nat {
      1 + exponentBits + fractionBits
    }

    /** The largest exponent field, used by infinities and NaNs. */
    function Special(): nat {
      Pow2(exponentBits) - 1
    }
  }

  const HALF := Format(5, 10)
  const SINGLE := Format(8, 23)
  const DOUBLE := Format(11, 52)

  function FormatOf(value: FloatBits): Format {
    match value
    case Half(_) => HALF
    case Single(_) => SINGLE
    case Double(_) => DOUBLE
  }

  function BitsOf(value: FloatBits): nat {
    match value
    case Half(x) => x
    case Single(x) => x
    case Double(x) => x
  }

  datatype Number = NaN | Infinite(negative: bool) | Finite(units: int)

  /** The value of sign-free storage bits, continued through the infinity. */
  function Units(fm: Format, magnitude: nat): nat {
    var exponent, fraction := High(magnitude, fm.fractionBits), Low(magnitude, fm.fractionBits);
    if exponent == 0 then fraction else Up(Pow2(fm.fractionBits) + fraction, exponent - 1)
  }

  function Decode(fm: Format, bits: nat): Number {
    var negative := High(bits, fm.exponentBits + fm.fractionBits) > 0;
    var magnitude := Low(bits, fm.exponentBits + fm.fractionBits);
    var exponent, fraction := High(magnitude, fm.fractionBits), Low(magnitude, fm.fractionBits);
    if exponent == fm.Special() then if fraction == 0 then Infinite(negative) else NaN
    else
      var units: int := Units(fm, magnitude);
      Finite(if negative then -units else units)
  }

  /** A value lies below the start of the next exponent. */
  lemma UnitsBelow(fm: Format, magnitude: nat)
    ensures Units(fm, magnitude) < Up(Pow2(fm.fractionBits), High(magnitude, fm.fractionBits))
  {
    var p := Pow2(fm.fractionBits);
    var exponent := High(magnitude, fm.fractionBits);
    hide Pow2, High, Low;
    SplitWord(magnitude, fm.fractionBits);
    if exponent > 0 {
      UpOrder(p + Low(magnitude, fm.fractionBits), 2 * p, exponent - 1);
      UpSum(p, p, exponent - 1);
    }
  }

  /** Storage order is value order: a larger magnitude is a larger value. */
  lemma UnitsIncreasing(fm: Format, a: nat, b: nat)
    requires a < b
    ensures Units(fm, a) < Units(fm, b)
  {
    hide Pow2, High, Low, Up;
    var f := fm.fractionBits;
    var x, y := High(a, f), High(b, f);
    SplitWord(a, f);
    SplitWord(b, f);
    if x == y {
      if x > 0 {
        UpOrder(Pow2(f) + Low(a, f), Pow2(f) + Low(b, f), x - 1);
      }
    } else {
      HighOrder(a, b, f);
      UnitsBelow(fm, a);
      UpGrows(Pow2(f), x, y - 1);
      UpOrder(Pow2(f) + Low(b, f), Pow2(f), y - 1);
    }
  }

  lemma {:induction false} HighOrder(a: nat, b: nat, k: nat)
    requires a <= b
    ensures High(a, k) <= High(b, k)
  {
    if k > 0 {
      HighOrder(a / 2, b / 2, k - 1);
    }
  }

  /** Storage bits by their fields: a sign, an exponent and a fraction. Exponent zero is
      for subnormal numbers, the largest exponent for infinities and NaNs. */
  lemma DecodeMeans(fm: Format, negative: bool, exponent: nat, fraction: nat)
    requires exponent < Pow2(fm.exponentBits) && fraction < Pow2(fm.fractionBits)
    ensures var sign := if negative then Pow2(fm.exponentBits + fm.fractionBits) else 0;
      var number := Decode(fm, sign + exponent * Pow2(fm.fractionBits) + fraction);
      if exponent == Pow2(fm.exponentBits) - 1 then number == if fraction == 0 then Infinite(negative) else NaN
      else
        var units: int := if exponent == 0 then fraction else (Pow2(fm.fractionBits) + fraction) * Pow2(exponent - 1);
        number == Finite(if negative then -units else units)
  {
    hide Pow2, High, Low, Up;
    var e, f := fm.exponentBits, fm.fractionBits;
    var magnitude := exponent * Pow2(f) + fraction;
    UpIsProduct(exponent, f);
    SplitUnique(exponent, fraction, f);
    Pow2Sum(e, f);
    MagnitudeBelow(exponent, fraction, Pow2(e), Pow2(f));
    UpOne(e + f);
    SplitUnique(if negative then 1 else 0, magnitude, e + f);
    if exponent > 0 {
      UpIsProduct(Pow2(f) + fraction, exponent - 1);
    }
  }

  lemma MagnitudeBelow(exponent: nat, fraction: nat, exponents: nat, fractions: nat)
    requires exponent < exponents && fraction < fractions
    ensures exponent * fractions + fraction < exponents * fractions
  {
    assert (exponent + 1) * fractions <= exponents * fractions;
  }

  /** The number one in the three formats, in units of their smallest numbers. */
  lemma OneIs()
    ensures Decode(HALF, 0x3C00) == Finite(Pow2(24))
    ensures Decode(SINGLE, 0x3F80_0000) == Finite(Pow2(149))
    ensures Decode(DOUBLE, 0x3FF0_0000_0000_0000) == Finite(Pow2(1074))
  {
    FieldSizes();
    hide Pow2, Decode;
    DecodeMeans(HALF, false, 15, 0);
    DecodeMeans(SINGLE, false, 127, 0);
    DecodeMeans(DOUBLE, false, 1023, 0);
    Pow2Sum(10, 14);
    Pow2Sum(23, 126);
    Pow2Sum(52, 1022);
  }

  lemma FieldSizes()
    ensures Pow2(5) == 32 && Pow2(8) == 256 && Pow2(11) == 2048
    ensures Pow2(10) == 1024 && Pow2(23) == 0x80_0000 && Pow2(52) == 0x10_0000_0000_0000
  {
    assert Pow2(5) == 32;
    hide Pow2;
    Pow2Sum(5, 5);
    EightAndFour();
    Pow2Sum(8, 3);
    Pow2Sum(10, 5);
    Pow2Sum(15, 8);
    Pow2At32();
    Pow2Sum(32, 10);
    Pow2Sum(42, 10);
  }

  lemma EightAndFour()
    ensures Pow2(8) == 256 && Pow2(3) == 8
  {
  }
}
