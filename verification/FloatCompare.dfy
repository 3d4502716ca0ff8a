/** Comparison of floating-point storage bits by integer order. */
module FloatCompare {
  import opened Bits
  import opened Wrappers
  import opened IrTypes
  import opened FloatFormat

  datatype Predicate =
    | Oeq | One | Olt | Ole | Ogt | Oge | Ord | Uno | Ueq | Une | Ult | Ule | Ugt | Uge

  datatype Ordering = Less | Equal | Greater

  function NaturalOrder(a: nat, b: nat): Ordering {
    if a < b then Less else if a == b then Equal else Greater
  }

  /** All exponent bits are set and some fraction bit is. */
  predicate IsNan(fm: Format, bits: nat) {
    var exponent := Up(fm.Special(), fm.fractionBits);
    And(bits, exponent) == exponent && And(bits, Pow2(fm.fractionBits) - 1) != 0
  }

  /** Order of two encodings of one format, ignoring NaNs. */
  function BitOrder(width: nat, a: nat, b: nat): Ordering
    requires width > 0
  {
    var sign := Pow2(width - 1);
    if And(a, sign - 1) == 0 && And(b, sign - 1) == 0 then Equal
    else if And(Xor(a, b), sign) != 0 then if And(a, sign) != 0 then Less else Greater
    else if And(a, sign) != 0 then NaturalOrder(b, a)
    else NaturalOrder(a, b)
  }

  function Holds(predicate_: Predicate, ordered: bool, order: Ordering): bool {
    match predicate_
    case Oeq => ordered && order.Equal?
    case One => ordered && !order.Equal?
    case Olt => ordered && order.Less?
    case Ole => ordered && !order.Greater?
    case Ogt => ordered && order.Greater?
    case Oge => ordered && !order.Less?
    case Ord => ordered
    case Uno => !ordered
    case Ueq => !ordered || order.Equal?
    case Une => !ordered || !order.Equal?
    case Ult => !ordered || order.Less?
    case Ule => !ordered || !order.Greater?
    case Ugt => !ordered || order.Greater?
    case Uge => !ordered || !order.Less?
  }

  /** `FloatBits::compare`. */
  function Compare(a: FloatBits, b: FloatBits, predicate_: Predicate): Option<bool> {
    if FormatOf(a) != FormatOf(b) then None
    else
      var fm := FormatOf(a);
      var ordered := !IsNan(fm, BitsOf(a)) && !IsNan(fm, BitsOf(b));
      Some(Holds(predicate_, ordered, BitOrder(fm.Width(), BitsOf(a), BitsOf(b))))
  }

  /** The order of the extended reals: infinities at the ends. */
  ghost predicate Below(x: Number, y: Number)
    requires !x.NaN? && !y.NaN?
  {
    match (x, y)
    case (Finite(a), Finite(b)) => a < b
    case (Infinite(n), Infinite(m)) => n && !m
    case (Infinite(n), Finite(_)) => n
    case (Finite(_), Infinite(m)) => !m
  }

  /** The meaning of the predicates on numbers (IEEE 754-2019, section 5.11). */
  ghost predicate Meaning(predicate_: Predicate, x: Number, y: Number) {
    var unordered := x.NaN? || y.NaN?;
    match predicate_
    case Oeq => !unordered && x == y
    case One => !unordered && x != y
    case Olt => !unordered && Below(x, y)
    case Ole => !unordered && (Below(x, y) || x == y)
    case Ogt => !unordered && Below(y, x)
    case Oge => !unordered && (Below(y, x) || x == y)
    case Ord => !unordered
    case Uno => unordered
    case Ueq => unordered || x == y
    case Une => unordered || x != y
    case Ult => unordered || Below(x, y)
    case Ule => unordered || Below(x, y) || x == y
    case Ugt => unordered || Below(y, x)
    case Uge => unordered || Below(y, x) || x == y
  }

  ghost function NumberOf(value: FloatBits): Number {
    Decode(FormatOf(value), BitsOf(value))
  }

  /** The sign bit, the magnitude and the NaN test, read off the masks. */
  lemma MasksMean(fm: Format, bits: nat)
    requires bits < Pow2(fm.Width()) && fm.exponentBits > 0
    ensures var k := fm.Width() - 1;
            && High(bits, k) < 2
            && (And(bits, Pow2(k)) != 0 <==> High(bits, k) == 1)
            && And(bits, Pow2(k) - 1) == Low(bits, k)
    ensures IsNan(fm, bits) <==> Decode(fm, bits).NaN?
  {
    var k := fm.Width() - 1;
    var f := fm.fractionBits;
    HighBelow(bits, k, 1);
    AndLowBits(bits, k);
    UpOne(k);
    AndShifted(bits, 1, k);
    assert And(High(bits, k), 1) == High(bits, k);
    UpOrder(0, High(bits, k), k);
    NanMeans(fm, bits);
  }

  /** The exponent field of the storage bits is that of the magnitude. */
  lemma {:induction false} HighOfLow(a: nat, f: nat, e: nat)
    ensures High(Low(a, f + e), f) == Low(High(a, f), e)
    ensures Low(Low(a, f + e), f) == Low(a, f)
  {
    if f > 0 {
      HighOfLow(a / 2, f - 1, e);
    }
  }

  lemma NanMeans(fm: Format, bits: nat)
    requires fm.exponentBits > 0
    ensures IsNan(fm, bits) <==> Decode(fm, bits).NaN?
  {
    hide And, Up, High, Low, Pow2, Units;
    var f, e := fm.fractionBits, fm.exponentBits;
    AndShifted(bits, fm.Special(), f);
    AndLowBits(High(bits, f), e);
    AndLowBits(bits, f);
    HighOfLow(bits, f, e);
    UpOrder(Low(High(bits, f), e), fm.Special(), f);
    UpOrder(fm.Special(), Low(High(bits, f), e), f);
    assert e + f == f + e;
  }

  lemma {:induction false} XorSign(a: nat, b: nat, k: nat)
    requires High(a, k) < 2 && High(b, k) < 2
    ensures And(Xor(a, b), Pow2(k)) != 0 <==> High(a, k) != High(b, k)
  {
    if k == 0 {
      AndMask(Xor(a, b), 1);
    } else {
      XorSign(a / 2, b / 2, k - 1);
      XorHalves(a, b);
      AndHalves(Xor(a, b), Pow2(k));
    }
  }

  /** Where a number stands, given its sign and magnitude: infinities continue
      the finite values of their sign. */
  ghost function Place(fm: Format, negative: bool, magnitude: nat): int {
    var units: int := Units(fm, magnitude);
    if negative then -units else units
  }

  ghost predicate IsValue(fm: Format, magnitude: nat) {
    var exponent := High(magnitude, fm.fractionBits);
    exponent < fm.Special() || (exponent == fm.Special() && Low(magnitude, fm.fractionBits) == 0)
  }

  lemma FiniteBelowInfinite(fm: Format, a: nat, b: nat)
    requires IsValue(fm, a) && High(a, fm.fractionBits) < fm.Special()
    requires High(b, fm.fractionBits) == fm.Special()
    ensures a < b && 0 <= Units(fm, a) < Units(fm, b) && b > 0
  {
    hide High, Low, Up, Pow2;
    if a >= b {
      HighOrder(b, a, fm.fractionBits);
    }
    UnitsIncreasing(fm, a, b);
  }

  ghost function NumberAt(fm: Format, negative: bool, magnitude: nat): Number
    requires IsValue(fm, magnitude)
  {
    if High(magnitude, fm.fractionBits) == fm.Special() then Infinite(negative)
    else Finite(Place(fm, negative, magnitude))
  }

  lemma UnitsZero(fm: Format)
    ensures Units(fm, 0) == 0 && High(0, fm.fractionBits) == 0
  {
    hide Up, Pow2;
    SplitWord(0, fm.fractionBits);
    UpOrder(High(0, fm.fractionBits), 0, fm.fractionBits);
  }

  /** Numbers compare like their places. */
  lemma PlacesCompare(fm: Format, m: bool, a: nat, n: bool, b: nat)
    requires IsValue(fm, a) && IsValue(fm, b) && fm.exponentBits > 0
    ensures var x, y := NumberAt(fm, m, a), NumberAt(fm, n, b);
            && (Below(x, y) <==> Place(fm, m, a) < Place(fm, n, b))
            && (x == y <==> Place(fm, m, a) == Place(fm, n, b))
  {
    hide High, Low, Up, Units, Pow2;
    SameSideInfinities(fm, a, b);
    var s := fm.Special();
    var i, j := High(a, fm.fractionBits) == s, High(b, fm.fractionBits) == s;
    if i && !j {
      FiniteBelowInfinite(fm, b, a);
    } else if j && !i {
      FiniteBelowInfinite(fm, a, b);
    }
  }

  lemma SameSideInfinities(fm: Format, a: nat, b: nat)
    requires IsValue(fm, a) && IsValue(fm, b) && fm.exponentBits > 0
    ensures High(a, fm.fractionBits) == fm.Special() == High(b, fm.fractionBits) ==> a == b
    ensures High(a, fm.fractionBits) == fm.Special() ==> Units(fm, a) > 0
  {
    SplitWord(a, fm.fractionBits);
    SplitWord(b, fm.fractionBits);
    if High(a, fm.fractionBits) == fm.Special() {
      UnitsZero(fm);
      assert fm.Special() >= 1;
      if a == 0 {
        assert false;
      }
      UnitsIncreasing(fm, 0, a);
    }
  }

  /** On numbers, the order of the bits is the order of the places. */
  lemma BitOrderPlaces(fm: Format, a: nat, b: nat)
    requires fm.exponentBits > 0 && a < Pow2(fm.Width()) && b < Pow2(fm.Width())
    ensures var k := fm.Width() - 1;
            var p := Place(fm, High(a, k) > 0, Low(a, k));
            var q := Place(fm, High(b, k) > 0, Low(b, k));
            BitOrder(fm.Width(), a, b) == if p < q then Less else if p == q then Equal else Greater
  {
    var k := fm.Width() - 1;
    MasksMean(fm, a);
    MasksMean(fm, b);
    XorSign(a, b, k);
    SplitWord(a, k);
    SplitWord(b, k);
    UnitsZero(fm);
    hide High, Low, Up, Units, Pow2, And, Xor, IsNan, Decode;
    var x, y := Low(a, k), Low(b, k);
    UnitsOrder(fm, x, y);
    UnitsOrder(fm, 0, x);
    UnitsOrder(fm, 0, y);
    assert High(a, k) == High(b, k) ==> (a < b <==> x < y) && (a == b <==> x == y);
  }

  lemma UnitsOrder(fm: Format, a: nat, b: nat)
    ensures a < b <==> Units(fm, a) < Units(fm, b)
    ensures a == b <==> Units(fm, a) == Units(fm, b)
  {
    hide Units;
    if a < b {
      UnitsIncreasing(fm, a, b);
    } else if b < a {
      UnitsIncreasing(fm, b, a);
    }
  }

  lemma DecodeAt(fm: Format, bits: nat)
    requires fm.exponentBits > 0 && bits < Pow2(fm.Width()) && !Decode(fm, bits).NaN?
    ensures var k := fm.Width() - 1;
            IsValue(fm, Low(bits, k)) && Decode(fm, bits) == NumberAt(fm, High(bits, k) > 0, Low(bits, k))
  {
    var k, f := fm.Width() - 1, fm.fractionBits;
    hide Up, Units;
    SplitWord(bits, k);
    HighBelow(Low(bits, k), f, fm.exponentBits);
    assert f + fm.exponentBits == k;
  }

  lemma StorageFits(value: FloatBits)
    ensures BitsOf(value) < Pow2(FormatOf(value).Width())
  {
    Pow2At64();
    Pow2At32();
    assert Pow2(16) == 0x1_0000 by { assert Pow2(8) == 256; Pow2Sum(8, 8); }
  }

  /** `compare` on two values of one width agrees with the numbers they denote;
      on different widths it gives no answer. */
  lemma CompareMeans(a: FloatBits, b: FloatBits, predicate_: Predicate)
    ensures Compare(a, b, predicate_).None? <==> FormatOf(a) != FormatOf(b)
    ensures FormatOf(a) == FormatOf(b) ==>
      (Compare(a, b, predicate_) == Some(true) <==> Meaning(predicate_, NumberOf(a), NumberOf(b)))
  {
    hide High, Low, Up, Units, Pow2, And, Xor, IsNan, Decode, BitOrder, Place;
    if FormatOf(a) == FormatOf(b) {
      var fm := FormatOf(a);
      var x, y := BitsOf(a), BitsOf(b);
      StorageFits(a);
      StorageFits(b);
      NanMeans(fm, x);
      NanMeans(fm, y);
      if !NumberOf(a).NaN? && !NumberOf(b).NaN? {
        var k := fm.Width() - 1;
        DecodeAt(fm, x);
        DecodeAt(fm, y);
        BitOrderPlaces(fm, x, y);
        PlacesCompare(fm, High(x, k) > 0, Low(x, k), High(y, k) > 0, Low(y, k));
        PlacesCompare(fm, High(y, k) > 0, Low(y, k), High(x, k) > 0, Low(x, k));
      }
    }
  }

  /** `Ole` is a total preorder on the values that are not NaN. */
  lemma TotalPreorder(a: FloatBits, b: FloatBits, c: FloatBits)
    requires FormatOf(a) == FormatOf(b) == FormatOf(c)
    requires !NumberOf(a).NaN? && !NumberOf(b).NaN? && !NumberOf(c).NaN?
    ensures Compare(a, a, Ole) == Some(true)
    ensures Compare(a, b, Ole) == Some(true) || Compare(b, a, Ole) == Some(true)
    ensures Compare(a, b, Ole) == Some(true) && Compare(b, c, Ole) == Some(true)
            ==> Compare(a, c, Ole) == Some(true)
  {
    CompareMeans(a, a, Ole);
    CompareMeans(a, b, Ole);
    CompareMeans(b, a, Ole);
    CompareMeans(b, c, Ole);
    CompareMeans(a, c, Ole);
    hide Compare, Decode;
  }

  /** Each ordered predicate and the unordered predicate that negates it. */
  function Opposite(predicate_: Predicate): Predicate {
    match predicate_
    case Oeq => Une case Une => Oeq
    case One => Ueq case Ueq => One
    case Olt => Uge case Uge => Olt
    case Ole => Ugt case Ugt => Ole
    case Ogt => Ule case Ule => Ogt
    case Oge => Ult case Ult => Oge
    case Ord => Uno case Uno => Ord
  }

  /** Negating the opposite predicate gives the predicate; swapping the operands
      mirrors the order predicates. */
  lemma OppositePredicates(a: FloatBits, b: FloatBits, predicate_: Predicate)
    requires FormatOf(a) == FormatOf(b)
    ensures Compare(a, b, predicate_).value != Compare(a, b, Opposite(predicate_)).value
    ensures Compare(a, b, Olt) == Compare(b, a, Ogt) && Compare(a, b, Ole) == Compare(b, a, Oge)
  {
    CompareMeans(a, b, Olt);
    CompareMeans(b, a, Ogt);
    CompareMeans(a, b, Ole);
    CompareMeans(b, a, Oge);
    hide BitOrder, IsNan, Decode;
  }
}
