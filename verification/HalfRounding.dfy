/** Direct rounding of binary64 storage bits to binary16. */
module HalfRounding {
  import opened Bits
  import opened IrTypes
  import opened FloatFormat
  import opened FloatCompare

  const HALF_INFINITY := 0x7c00
  const HALF_NAN := 0x7e00

  /** `f64_to_f16` on the bits of its argument. */
  function ToHalf(bits: Word64): nat {
    var sign := And(High(bits, 48), 0x8000);
    var exponent := And(High(bits, 52), 0x7ff);
    var fraction := And(bits, Pow2(52) - 1);
    if exponent == 0x7ff then Or(sign, if fraction == 0 then HALF_INFINITY else HALF_NAN)
    else if exponent == 0 then sign
    else
      var unbiased := exponent - 1023;
      if unbiased > 15 then Or(sign, HALF_INFINITY)
      else if unbiased < -25 then sign
      else
        var mantissa := Or(fraction, Pow2(52));
        var shift: nat := if unbiased < -14 then 28 - unbiased else 42;
        var rounded := RoundedShift(mantissa, shift);
        if unbiased < -14 then Or(sign, rounded) else Or(sign, Up(unbiased + 14, 10) + rounded)
  }

  /** Drop `shift` low bits, rounding to nearest with ties to even. */
  function RoundedShift(mantissa: nat, shift: nat): nat
    requires shift > 0
  {
    var base := High(mantissa, shift);
    var remainder := And(mantissa, Pow2(shift) - 1);
    var halfway := Pow2(shift - 1);
    if remainder > halfway || (remainder == halfway && And(base, 1) != 0) then base + 1 else base
  }

  /** The binary16 magnitude `k` in units of the smallest binary64 number; at
      `HALF_INFINITY` it continues to 2^16, the value where overflow starts. */
  ghost function HalfValue(k: nat): nat {
    Up(Units(HALF, k), 1050)
  }

  ghost function Distance(a: int, b: int): int {
    if a < b then b - a else a - b
  }

  /** `k` is nearest to `v` among all magnitudes, and even if another is as near. */
  ghost predicate NearestEven(v: nat, k: nat) {
    && k <= HALF_INFINITY
    && forall j | 0 <= j <= HALF_INFINITY && j != k ::
         Distance(v, HalfValue(k)) < Distance(v, HalfValue(j))
         || (Distance(v, HalfValue(k)) == Distance(v, HalfValue(j)) && k % 2 == 0)
  }

  lemma HalfIncreasing(j: nat, k: nat)
    requires j < k
    ensures HalfValue(j) < HalfValue(k)
  {
    hide Up, Units;
    UnitsIncreasing(HALF, j, k);
    UpOrder(Units(HALF, j), Units(HALF, k), 1050);
  }

  /** Between two neighbours the nearer one, or the even one, is nearest of all. */
  lemma NearestInGap(v: nat, k: nat, up: bool)
    requires k < HALF_INFINITY && HalfValue(k) <= v < HalfValue(k + 1)
    requires var below, above := v - HalfValue(k), HalfValue(k + 1) - v;
             up == (below > above || (below == above && k % 2 == 1))
    ensures NearestEven(v, if up then k + 1 else k)
  {
    hide HalfValue;
    var n := if up then k + 1 else k;
    forall j | 0 <= j <= HALF_INFINITY && j != n
      ensures Distance(v, HalfValue(n)) < Distance(v, HalfValue(j))
              || (Distance(v, HalfValue(n)) == Distance(v, HalfValue(j)) && n % 2 == 0)
    {
      if j < k {
        HalfIncreasing(j, k);
      } else if j > k + 1 {
        HalfIncreasing(k + 1, j);
      }
    }
  }

  lemma NearestAbove(v: nat)
    requires v >= HalfValue(HALF_INFINITY)
    ensures NearestEven(v, HALF_INFINITY)
  {
    hide HalfValue;
    forall j | 0 <= j < HALF_INFINITY
      ensures HalfValue(j) < HalfValue(HALF_INFINITY)
    {
      HalfIncreasing(j, HALF_INFINITY);
    }
  }

  /** The unrounded magnitude and the gap above it: `k` denotes `base`, and
      `k + 1` denotes `base + 1`, both shifted by `s`. */
  ghost predicate Represented(k: nat, base: nat, s: nat) {
    HalfValue(k) == Up(base, s) && HalfValue(k + 1) == Up(base + 1, s) && k % 2 == base % 2
  }

  /** Rounding a shifted mantissa picks the nearest neighbour. */
  lemma RoundedIsNearest(mantissa: nat, shift: nat, e: nat, k: nat)
    requires shift > 0 && k < HALF_INFINITY
    requires Represented(k, High(mantissa, shift), shift + e)
    ensures var up := RoundedShift(mantissa, shift) == High(mantissa, shift) + 1;
            && (RoundedShift(mantissa, shift) == High(mantissa, shift) || up)
            && NearestEven(Up(mantissa, e), if up then k + 1 else k)
  {
    hide HalfValue, Up, High, Low, Pow2, And, NearestEven;
    var base, rest := High(mantissa, shift), Low(mantissa, shift);
    SplitWord(mantissa, shift);
    AndLowBits(mantissa, shift);
    AndOne(base);
    // v == base * 2^(shift + e) + rest * 2^e, and the gap is 2^(shift + e).
    UpSum(Up(base, shift), rest, e);
    UpTwice(base, shift, e);
    UpSum(base, 1, shift + e);
    UpTwice(1, shift, e);
    UpOne(shift);
    UpOrder(rest, Pow2(shift), e);
    // Compare the rest with half the gap.
    HalfGap(rest, shift, e);
    NearestInGap(Up(mantissa, e), k, RoundedShift(mantissa, shift) == base + 1);
  }

  lemma AndOne(a: nat)
    ensures And(a, 1) == a % 2
  {
    AndMask(a, 1);
  }

  /** Twice the rest against the gap, before and after shifting. */
  lemma HalfGap(rest: nat, shift: nat, e: nat)
    requires shift > 0
    ensures rest < Pow2(shift - 1) <==> 2 * Up(rest, e) < Up(Pow2(shift), e)
    ensures rest == Pow2(shift - 1) <==> 2 * Up(rest, e) == Up(Pow2(shift), e)
  {
    hide Up;
    UpSum(rest, rest, e);
    UpOrder(2 * rest, Pow2(shift), e);
    UpOrder(Pow2(shift), 2 * rest, e);
  }

  /** A subnormal result: `k` itself is the base. */
  lemma SubnormalBase(base: nat)
    requires base < 1024
    ensures Represented(base, base, 1050)
  {
    hide Up;
    HalfUnitsLow(base);
    HalfUnitsLow(base + 1);
  }

  lemma HalfUnitsLow(k: nat)
    requires k <= 1024
    ensures Units(HALF, k) == k
  {
    assert Pow2(10) == 1024 by { assert Pow2(5) == 32; Pow2Sum(5, 5); }
    UpOne(10);
    if k < 1024 {
      SplitUnique(0, k, 10);
    } else {
      SplitUnique(1, 0, 10);
      assert Up(1024, 0) == 1024;
    }
  }

  /** A normal result with exponent field `x + 1` and significand `base`. */
  lemma NormalBase(base: nat, x: nat)
    requires 1024 <= base < 2048 && x <= 29
    ensures Represented(Up(x, 10) + base, base, 1050 + x)
    ensures Up(x, 10) + base < HALF_INFINITY
  {
    hide Up, Units;
    HalfUnitsNormal(base, x);
    if base + 1 < 2048 {
      HalfUnitsNormal(base + 1, x);
    } else {
      // The carry moves into the exponent.
      HalfUnitsNormal(1024, x + 1);
      UpSum(x, 1, 10);
      UpOne(10);
      Pow2At10();
      UpSum(1024, 1024, x);
      assert Up(1024, x + 1) == Up(2048, x) by { UpTwice(1024, 1, x); TwiceUp(); }
    }
    UpTwice(base, x, 1050);
    UpTwice(base + 1, x, 1050);
    UpIsProduct(x, 10);
    Pow2At10();
  }

  lemma TwiceUp()
    ensures Up(1024, 1) == 2048
  {
  }

  lemma Pow2At10()
    ensures Pow2(10) == 1024
  {
    assert Pow2(5) == 32;
    Pow2Sum(5, 5);
  }

  lemma HalfUnitsNormal(base: nat, x: nat)
    requires 1024 <= base < 2048
    ensures Units(HALF, Up(x, 10) + base) == Up(base, x)
  {
    hide Up, High, Low;
    Pow2At10();
    UpSum(x, 1, 10);
    UpOne(10);
    SplitUnique(x + 1, base - 1024, 10);
  }

  lemma {:induction false} HighTwice(a: nat, j: nat, k: nat)
    ensures High(High(a, j), k) == High(a, j + k)
  {
    if j > 0 {
      HighTwice(a / 2, j - 1, k);
    }
  }

  /** The three fields of a binary64 word. */
  lemma DoubleFields(bits: Word64)
    ensures High(bits, 63) < 2
    ensures And(High(bits, 48), 0x8000) == Up(High(bits, 63), 15)
    ensures And(High(bits, 52), 0x7ff) == High(Low(bits, 63), 52)
    ensures And(bits, Pow2(52) - 1) == Low(Low(bits, 63), 52)
  {
    Pow2At64();
    hide Up, High, Low, And, Pow2;
    HighBelow(bits, 63, 1);
    assert Pow2(1) == 2 by { Pow2At1(); }
    Up15();
    AndShifted(High(bits, 48), 1, 15);
    HighTwice(bits, 48, 15);
    AndOne(High(bits, 63));
    assert Pow2(11) == 2048 by { Pow2At11(); }
    AndLowBits(High(bits, 52), 11);
    AndLowBits(bits, 52);
    HighOfLow(bits, 52, 11);
  }

  lemma Pow2At1()
    ensures Pow2(1) == 2
  {
  }

  lemma Pow2At11()
    ensures Pow2(11) == 2048
  {
    Pow2At10();
  }

  lemma Up15()
    ensures Up(1, 15) == 0x8000 && Up(0, 15) == 0 && Pow2(15) == 0x8000
  {
    UpOne(15);
    Pow2At10();
    assert Pow2(5) == 32;
    Pow2Sum(10, 5);
  }

  /** Putting the sign back onto a magnitude. */
  lemma SignedMagnitude(negative: nat, magnitude: nat)
    requires negative < 2 && magnitude < 0x8000
    ensures var h := Or(Up(negative, 15), magnitude);
            h < 0x1_0000 && High(h, 15) == negative && Low(h, 15) == magnitude
  {
    Up15();
    AndLowHigh(magnitude, negative, 15);
    hide And, Or, High, Low, Up;
    AndCommutes(magnitude, Pow2(15) * negative);
    OrDisjoint(Up(negative, 15), magnitude);
    SplitUnique(negative, magnitude, 15);
  }

  /** The significand with its implicit bit. */
  lemma Significand(fraction: nat)
    requires fraction < Pow2(52)
    ensures Or(fraction, Pow2(52)) == Pow2(52) + fraction
  {
    AndLowHigh(fraction, 1, 52);
    OrDisjoint(fraction, Pow2(52));
  }

  lemma Pow2Step(k: nat)
    ensures Pow2(k + 1) == 2 * Pow2(k)
  {
  }

  /** Dropping 42 bits of a 53-bit significand leaves an 11-bit one. */
  lemma NormalRange(fraction: nat)
    requires fraction < Pow2(52)
    ensures 1024 <= High(Pow2(52) + fraction, 42) < 2048
  {
    hide Up, High, Low, Pow2;
    var mantissa := Pow2(52) + fraction;
    Pow2At10();
    Pow2At11();
    Pow2Step(52);
    HighBelow(mantissa, 42, 11);
    UpOne(52);
    UpOne(10);
    UpTwice(1, 10, 42);
    HighOrder(Up(1024, 42), mantissa, 42);
    PowPositive(42);
    SplitUnique(1024, 0, 42);
  }

  lemma PowPositive(k: nat)
    ensures 0 < Pow2(k)
  {
  }

  /** Dropping more bits leaves fewer than eleven. */
  lemma SubnormalRange(fraction: nat, shift: nat)
    requires fraction < Pow2(52) && shift >= 43
    ensures High(Pow2(52) + fraction, shift) < 1024
  {
    hide High, Pow2;
    Pow2At10();
    Pow2Step(52);
    Pow2Monotone(53, shift + 10);
    HighBelow(Pow2(52) + fraction, shift, 10);
  }

  /** The magnitude bits that `ToHalf` computes for a finite nonzero exponent. */
  ghost function HalfMagnitude(exponent: nat, fraction: nat): nat {
    var unbiased := exponent - 1023;
    if unbiased > 15 then HALF_INFINITY
    else if unbiased < -25 then 0
    else
      var shift: nat := if unbiased < -14 then 28 - unbiased else 42;
      var rounded := RoundedShift(Pow2(52) + fraction, shift);
      if unbiased < -14 then rounded else Up(unbiased + 14, 10) + rounded
  }

  /** Normal binary64 numbers round to the nearest binary16 magnitude. */
  lemma NormalRounds(exponent: nat, fraction: nat)
    requires 0 < exponent < 0x7ff && fraction < Pow2(52)
    ensures NearestEven(Up(Pow2(52) + fraction, exponent - 1), HalfMagnitude(exponent, fraction))
  {
    hide Up, High, Low, Pow2, And, NearestEven, Represented, RoundedShift, HalfValue;
    var unbiased := exponent - 1023;
    var mantissa := Pow2(52) + fraction;
    if unbiased > 15 {
      OverflowValue(mantissa, exponent);
      NearestAbove(Up(mantissa, exponent - 1));
    } else if unbiased < -25 {
      Pow2Step(52);
      UnderflowValue(mantissa, exponent - 1);
    } else if unbiased < -14 {
      var shift := 28 - unbiased;
      SubnormalRange(fraction, shift);
      SubnormalBase(High(mantissa, shift));
      RoundedIsNearest(mantissa, shift, exponent - 1, High(mantissa, shift));
    } else {
      NormalRange(fraction);
      NormalBase(High(mantissa, 42), unbiased + 14);
      RoundedIsNearest(mantissa, 42, exponent - 1, Up(unbiased + 14, 10) + High(mantissa, 42));
    }
  }

  lemma OverflowValue(mantissa: nat, exponent: nat)
    requires mantissa >= Pow2(52) && exponent >= 1039
    ensures Up(mantissa, exponent - 1) >= HalfValue(HALF_INFINITY)
  {
    InfinityUnits();
    hide Up, Units, Pow2;
    UpTwice(1024, 30, 1050);
    UpOne(52);
    Pow2At10();
    UpOne(10);
    UpTwice(1, 52, exponent - 1);
    UpTwice(1, 10, 1080);
    UpGrows(1, 1090, 52 + exponent - 1);
    UpOrder(mantissa, Pow2(52), exponent - 1);
  }

  lemma InfinityUnits()
    ensures Units(HALF, HALF_INFINITY) == Up(1024, 30)
  {
    Pow2At10();
    hide Up, High, Low;
    UpIsProduct(31, 10);
    SplitUnique(31, 0, 10);
  }

  /** Below half of the smallest binary16 number, zero is nearest. */
  lemma UnderflowValue(mantissa: nat, e: nat)
    requires mantissa < Pow2(53) && e <= 996
    ensures NearestEven(Up(mantissa, e), 0)
  {
    hide Up, Units, Pow2, NearestEven;
    HalfUnitsLow(0);
    HalfUnitsLow(1);
    UpOne(1050);
    UpOne(53);
    UpTwice(1, 53, e);
    UpOrder(mantissa, Pow2(53), e);
    UpGrows(1, 53 + e, 1049);
    UpTwice(1, 1, 1049);
    UpSum(1, 1, 1049);
    UpAtOne();
    NearestInGap(Up(mantissa, e), 0, false);
  }

  lemma UpAtOne()
    ensures Up(1, 1) == 2
  {
  }

  /** `f64_to_f16` keeps the sign, maps infinities to infinities and NaNs to
      quiet NaNs, and rounds every finite number to the nearest binary16 value
      with ties to even (IEEE 754-2019, section 4.3.1). The magnitude
      `HALF_INFINITY` is the overflow to infinity. */
  lemma ToHalfRounds(bits: Word64)
    ensures var h, x := ToHalf(bits), Decode(DOUBLE, bits);
            && h < 0x1_0000
            && High(h, 15) == High(bits, 63)
            && (x.NaN? ==> Low(h, 15) == 0x7E00)
            && (x.Infinite? ==> Low(h, 15) == 0x7C00)
            && (x.Finite? ==> NearestEven(Units(DOUBLE, Low(bits, 63)), Low(h, 15)))
  {
    hide Up, High, Low, Pow2, And, Or, NearestEven, RoundedShift;
    DoubleFields(bits);
    var negative := High(bits, 63);
    var magnitude := Low(bits, 63);
    var exponent, fraction := High(magnitude, 52), Low(magnitude, 52);
    SplitWord(magnitude, 52);
    assert DOUBLE.Special() == 0x7ff by { Pow2At11(); }
    SignedMagnitude(negative, HALF_INFINITY);
    SignedMagnitude(negative, HALF_NAN);
    SignedMagnitude(negative, 0);
    SignOnly(negative);
    if exponent == 0 {
      SubnormalValue(fraction);
    } else if exponent < 0x7ff {
      Significand(fraction);
      NormalRounds(exponent, fraction);
      NearestIsSmall(Up(Pow2(52) + fraction, exponent - 1), HalfMagnitude(exponent, fraction));
      SignedMagnitude(negative, HalfMagnitude(exponent, fraction));
    } else {
      SplitWord(bits, 63);
      Pow2At11();
      HighBelow(magnitude, 52, 11);
    }
  }

  lemma SignOnly(negative: nat)
    requires negative < 2
    ensures Or(Up(negative, 15), 0) == Up(negative, 15)
  {
  }

  lemma NearestIsSmall(v: nat, k: nat)
    requires NearestEven(v, k)
    ensures k < 0x8000
  {
  }

  lemma SubnormalValue(fraction: nat)
    requires fraction < Pow2(52)
    ensures NearestEven(fraction, 0)
  {
    hide Pow2, NearestEven;
    assert Up(fraction, 0) == fraction;
    Pow2Monotone(52, 53);
    UnderflowValue(fraction, 0);
  }

  /** What the rounded bits denote. */
  lemma HalfDecodes(h: Word16)
    ensures Low(h, 15) == HALF_NAN ==> Decode(HALF, h).NaN?
    ensures Low(h, 15) == HALF_INFINITY ==> Decode(HALF, h) == Infinite(High(h, 15) > 0)
    ensures Low(h, 15) < HALF_INFINITY ==>
      Decode(HALF, h).Finite?
      && Distance(Decode(HALF, h).units, 0) == Units(HALF, Low(h, 15))
  {
    hide Up, Low, High, Units;
    Pow2At10();
    var m := Low(h, 15);
    SplitWord(m, 10);
    UpIsProduct(High(m, 10), 10);
    assert HALF.Special() == 31 by { assert Pow2(5) == 32; }
  }
}
