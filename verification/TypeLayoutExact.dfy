/**
  Layout correctness: the checked 64-bit computation yields the exact layout,
  defined without limits, and fails exactly when a part does not fit.
 */
module TypeLayoutExact {
  import opened Bits
  import opened Wrappers
  import opened IrTypes
  import opened TypeLayout

  /** The least multiple of `align` that is not below `size`. */
  function RoundUp(size: nat, align: nat): (r: nat)
    requires align > 0
    ensures r >= size
  {
    if size % align == 0 then size else size + (align - size % align)
  }

  /** The exact alignment, size and field positions of a type, without limits. */
  ghost function ExactAlign(ty: Type, st: Storage): (a: nat)
    requires Valid(st)
    ensures a > 0
    decreases ty, 0
  {
    if Scalar(ty, st).Some? then
      PowerPositive(Scalar(ty, st).value.1);
      Scalar(ty, st).value.1
    else if ty.Array? then ExactAlign(ty.element, st)
    else if ty.Struct? then MaxAlign(ty.fields, |ty.fields|, st)
    else if ty.Tuple? then MaxAlign(ty.fields, |ty.fields|, st)
    else 1
  }

  ghost function MaxAlign(fields: seq<Type>, n: nat, st: Storage): (a: nat)
    requires Valid(st) && n <= |fields|
    ensures a > 0
    decreases fields, n
  {
    if n == 0 then 1 else Max(MaxAlign(fields, n - 1, st), ExactAlign(fields[n - 1], st))
  }

  ghost function ExactSize(ty: Type, st: Storage): nat
    requires Valid(st)
    decreases ty, 0
  {
    if Scalar(ty, st).Some? then Scalar(ty, st).value.0
    else if ty.Array? then ExactSize(ty.element, st) * ty.count
    else if ty.Struct? then RoundUp(FieldsEnd(ty.fields, |ty.fields|, st), MaxAlign(ty.fields, |ty.fields|, st))
    else if ty.Tuple? then RoundUp(FieldsEnd(ty.fields, |ty.fields|, st), MaxAlign(ty.fields, |ty.fields|, st))
    else 0
  }

  /** Where the first `n` fields end. */
  ghost function FieldsEnd(fields: seq<Type>, n: nat, st: Storage): nat
    requires Valid(st) && n <= |fields|
    decreases fields, n
  {
    if n == 0 then 0
    else RoundUp(FieldsEnd(fields, n - 1, st), ExactAlign(fields[n - 1], st)) + ExactSize(fields[n - 1], st)
  }

  ghost function FieldOffset(fields: seq<Type>, k: nat, st: Storage): nat
    requires Valid(st) && k < |fields|
  {
    RoundUp(FieldsEnd(fields, k, st), ExactAlign(fields[k], st))
  }

  ghost function FieldOffsets(fields: seq<Type>, n: nat, st: Storage): seq<nat>
    requires Valid(st) && n <= |fields|
  {
    if n == 0 then [] else FieldOffsets(fields, n - 1, st) + [FieldOffset(fields, n - 1, st)]
  }

  ghost function ExactLayout(ty: Type, st: Storage): Layout
    requires Valid(st)
  {
    Layout(ExactSize(ty, st), ExactAlign(ty, st),
      if ty.Struct? || ty.Tuple? then FieldOffsets(ty.fields, |ty.fields|, st) else [],
      if ty.Array? then Some(ExactSize(ty.element, st)) else None)
  }

  /** No part is void or too deep, and every part that is laid out fits the address
      width with its exact size. */
  ghost predicate Fits(ty: Type, st: Storage, depth: nat)
    requires Valid(st)
    decreases ty, 0
  {
    && ExactSize(ty, st) <= MaxSize(st)
    && (Scalar(ty, st).Some?
        || (ty.Array? && depth > 0 && Fits(ty.element, st, depth - 1))
        || (ty.Struct? && depth > 0 && AllFit(ty.fields, |ty.fields|, st, depth - 1))
        || (ty.Tuple? && depth > 0 && AllFit(ty.fields, |ty.fields|, st, depth - 1)))
  }

  ghost predicate AllFit(fields: seq<Type>, n: nat, st: Storage, depth: nat)
    requires Valid(st) && n <= |fields|
    decreases fields, n
  {
    n == 0 || (AllFit(fields, n - 1, st, depth) && Fits(fields[n - 1], st, depth))
  }

  /** Powers of two up to 16. */
  lemma SmallPower(a: nat)
    requires IsPowerOfTwo(a) && a <= 16
    ensures a == 1 || a == 2 || a == 4 || a == 8 || a == 16
  {
    if a > 1 {
      var b := a / 2;
      if b > 1 {
        var c := b / 2;
        if c > 1 {
          var d := c / 2;
          assert d == 1 || IsPowerOfTwo(d);
        }
      }
    }
  }

  predicate Natural(a: nat) {
    a == 1 || a == 2 || a == 4 || a == 8 || a == 16
  }

  lemma ScalarNatural(ty: Type, st: Storage)
    requires Valid(st) && Scalar(ty, st).Some?
    ensures var (size, align) := Scalar(ty, st).value;
      Natural(align) && size % align == 0 && size <= 16
  {
    hide IsPowerOfTwo;
    var (size, align) := Scalar(ty, st).value;
    ScalarAlignPower(ty, st);
    SmallPower(align);
  }

  lemma ScalarAlignPower(ty: Type, st: Storage)
    requires Valid(st) && Scalar(ty, st).Some?
    ensures var (size, align) := Scalar(ty, st).value;
      IsPowerOfTwo(align) && align <= size <= 16 && Natural(size)
  {
    hide IsPowerOfTwo;
  }

  /** What a target must offer: 32- or 64-bit pointers, and alignments that are powers
      of two and divide the size of what they align. */
  lemma ValidTargetIff(st: Storage)
    ensures Valid(st) <==>
      && (st.ptrBits == 32 || st.ptrBits == 64)
      && |st.scalarAlign| == 5
      && (forall i: nat | i < 5 :: Natural(st.scalarAlign[i]) && Pow2(i) % st.scalarAlign[i] == 0)
      && Natural(st.pointerAlign) && (st.ptrBits / 8) % st.pointerAlign == 0
      && (st.largeArray.Some? ==> IsPowerOfTwo(st.largeArray.value.1))
    ensures Valid(st) ==> MaxSize(st) == Pow2(st.ptrBits) - 1
  {
    hide IsPowerOfTwo;
    PowersToSixteen();
    hide Pow2;
    Pow2At32();
    Pow2At64();
    assert Pow2(0) == 1 && Pow2(1) == 2 && Pow2(2) == 4 && Pow2(3) == 8 && Pow2(4) == 16;
    if |st.scalarAlign| == 5 {
      forall i: nat | i < 5
        ensures IsPowerOfTwo(st.scalarAlign[i]) && st.scalarAlign[i] <= Pow2(i) <==>
          Natural(st.scalarAlign[i]) && Pow2(i) % st.scalarAlign[i] == 0
      {
        DividesSmall(st.scalarAlign[i], Pow2(i));
      }
      assert Valid(st) ==> forall i: nat | i < 5 :: IsPowerOfTwo(st.scalarAlign[i]) && st.scalarAlign[i] <= Pow2(i);
    }
    if st.ptrBits == 32 || st.ptrBits == 64 {
      DividesSmall(st.pointerAlign, st.ptrBits / 8);
    }
  }

  lemma PowersToSixteen()
    ensures Pow2(0) == 1 && Pow2(1) == 2 && Pow2(2) == 4 && Pow2(3) == 8 && Pow2(4) == 16
  {
  }

  lemma DividesSmall(a: nat, size: nat)
    requires Natural(size)
    ensures IsPowerOfTwo(a) && a <= size <==> Natural(a) && size % a == 0
  {
    if IsPowerOfTwo(a) && a <= size {
      SmallPower(a);
    }
  }

  /** The bytes of a scalar follow from its width, and its alignment is that of
      scalars of its size; pointers have the target's width. */
  lemma ScalarMatchesWidth(ty: Type, st: Storage)
    requires Valid(st)
    ensures ty.Bool? ==> Scalar(ty, st) == Some((1, st.scalarAlign[0]))
    ensures IsInteger(ty) ==>
      Scalar(ty, st).Some? && 8 * Scalar(ty, st).value.0 == if IntBits(ty) < 8 then 8 else IntBits(ty)
    ensures IsFloat(ty) ==>
      Scalar(ty, st).Some? && 8 * Scalar(ty, st).value.0 == if ty.F16? then 16 else if ty.F32? then 32 else 64
    ensures ty.Ptr? || ty.FnPtr? ==>
      Scalar(ty, st).Some? && 8 * Scalar(ty, st).value.0 == st.ptrBits && Scalar(ty, st).value.1 == st.pointerAlign
    ensures Scalar(ty, st).Some? && !ty.Ptr? && !ty.FnPtr? ==>
      exists i: nat | i < 5 :: Scalar(ty, st).value == (Pow2(i), st.scalarAlign[i])
    ensures Scalar(ty, st).None? <==> ty.Void? || ty.Array? || ty.Struct? || ty.Tuple?
  {
    assert Pow2(0) == 1 && Pow2(1) == 2 && Pow2(2) == 4;
    assert Pow2(3) == 8 && Pow2(4) == 16;
    hide Pow2, IsPowerOfTwo;
    if Scalar(ty, st).Some? && !ty.Ptr? && !ty.FnPtr? {
      var size := Scalar(ty, st).value.0;
      var i := if size == 1 then 0 else if size == 2 then 1 else if size == 4 then 2 else if size == 8 then 3 else 4;
      assert Scalar(ty, st).value == (Pow2(i), st.scalarAlign[i]);
    }
  }

  lemma {:induction false} AlignNatural(ty: Type, st: Storage)
    requires Valid(st)
    ensures Natural(ExactAlign(ty, st))
    decreases ty, 0
  {
    hide Valid, Scalar;
    if Scalar(ty, st).Some? {
      ScalarNatural(ty, st);
    } else if ty.Array? {
      AlignNatural(ty.element, st);
    } else if ty.Struct? || ty.Tuple? {
      MaxAlignNatural(ty.fields, |ty.fields|, st);
    }
  }

  lemma {:induction false} MaxAlignNatural(fields: seq<Type>, n: nat, st: Storage)
    requires Valid(st) && n <= |fields|
    ensures Natural(MaxAlign(fields, n, st))
    ensures forall k | 0 <= k < n :: ExactAlign(fields[k], st) <= MaxAlign(fields, n, st)
    decreases fields, n
  {
    hide Valid, Scalar, ExactAlign;
    if n > 0 {
      MaxAlignNatural(fields, n - 1, st);
      AlignNatural(fields[n - 1], st);
    }
  }

  lemma RoundUpAligns(size: nat, align: nat)
    requires Natural(align)
    ensures RoundUp(size, align) % align == 0 && RoundUp(size, align) < size + align
  {
  }

  /** No smaller multiple of the alignment is free. */
  lemma RoundUpLeast(size: nat, align: nat, at: nat)
    requires Natural(align) && at >= size && at % align == 0
    ensures RoundUp(size, align) <= at
  {
    RoundUpAligns(size, align);
    MultiplesApart(RoundUp(size, align), at, align);
  }

  lemma NaturalIsPower(align: nat)
    requires Natural(align)
    ensures IsPowerOfTwo(align) && align <= WORD_64
  {
    assert IsPowerOfTwo(1) && IsPowerOfTwo(2) && IsPowerOfTwo(4) && IsPowerOfTwo(8);
  }

  /** The masked padding of the program rounds up exactly, and reports overflow
      exactly when the rounded size does not fit a word. */
  lemma AlignUpRounds(size: nat, align: nat)
    requires Natural(align)
    ensures AlignUp(size, align) ==
      if RoundUp(size, align) >= WORD_64 then Failure(Overflow) else Success(RoundUp(size, align))
  {
    hide IsPowerOfTwo, Padding;
    NaturalIsPower(align);
    PaddingAligns(size, align);
    RoundUpAligns(size, align);
    PaddingIsLeast(size, align, RoundUp(size, align) - size);
    RoundUpLeast(size, align, size + Padding(size, align));
  }

  /** A successful layout is the exact one, and a layout succeeds exactly when it fits. */
  lemma {:induction false} LayoutIsExact(ty: Type, st: Storage, depth: nat)
    requires Valid(st)
    ensures LayoutOf(ty, st, depth).Success? <==> Fits(ty, st, depth)
    ensures LayoutOf(ty, st, depth).Success? ==> LayoutOf(ty, st, depth).value == ExactLayout(ty, st)
    decreases ty, 0
  {
    hide Valid, RoundUp, AlignUp, FieldsLayout, FieldsEnd, MaxAlign, FieldOffsets;
    if Scalar(ty, st).Some? {
      ScalarNatural(ty, st);
    } else if ty.Array? {
      if depth > 0 {
        LayoutIsExact(ty.element, st, depth - 1);
      }
    } else if ty.Struct? || ty.Tuple? {
      if depth > 0 {
        StructIsExact(ty.fields, st, depth - 1);
      }
    }
  }

  lemma {:induction false} StructIsExact(fields: seq<Type>, st: Storage, depth: nat)
    requires Valid(st)
    ensures var size := RoundUp(FieldsEnd(fields, |fields|, st), MaxAlign(fields, |fields|, st));
      && (StructLayout(fields, st, depth).Success? <==> size <= MaxSize(st) && AllFit(fields, |fields|, st, depth))
      && var exact := Layout(size, MaxAlign(fields, |fields|, st), FieldOffsets(fields, |fields|, st), None);
         StructLayout(fields, st, depth).Success? ==> StructLayout(fields, st, depth).value == exact
    decreases fields, |fields| + 1
  {
    hide Valid, RoundUp, AlignUp, FieldsLayout, FieldsEnd, MaxAlign, FieldOffsets, AllFit;
    FieldsAreExact(fields, |fields|, st, depth);
    MaxAlignNatural(fields, |fields|, st);
    AlignUpRounds(FieldsEnd(fields, |fields|, st), MaxAlign(fields, |fields|, st));
  }

  lemma {:induction false} FieldsAreExact(fields: seq<Type>, n: nat, st: Storage, depth: nat)
    requires Valid(st) && n <= |fields|
    ensures var run := FieldsLayout(fields, n, st, depth);
      && (run.Success? <==> FieldsEnd(fields, n, st) < WORD_64 && AllFit(fields, n, st, depth))
      && var exact := Layout(FieldsEnd(fields, n, st), MaxAlign(fields, n, st), FieldOffsets(fields, n, st), None);
         run.Success? ==> run.value == exact
    decreases fields, n
  {
    hide Valid, RoundUp, AlignUp, LayoutOf, ExactSize, ExactAlign, Fits;
    if n > 0 {
      FieldsAreExact(fields, n - 1, st, depth);
      LayoutIsExact(fields[n - 1], st, depth);
      AlignNatural(fields[n - 1], st);
      AlignUpRounds(FieldsEnd(fields, n - 1, st), ExactAlign(fields[n - 1], st));
    }
  }

  /** The size of every type is a multiple of its alignment, so the elements of an
      array, which are one size apart, all keep the alignment. */
  lemma {:induction false} SizeIsMultiple(ty: Type, st: Storage)
    requires Valid(st)
    ensures ExactSize(ty, st) % ExactAlign(ty, st) == 0
  {
    hide Valid, RoundUp, FieldsEnd, MaxAlign;
    if Scalar(ty, st).Some? {
      ScalarNatural(ty, st);
    } else if ty.Array? {
      SizeIsMultiple(ty.element, st);
      MultipleTimes(ExactSize(ty.element, st), ExactAlign(ty.element, st), ty.count);
    } else if ty.Struct? || ty.Tuple? {
      MaxAlignNatural(ty.fields, |ty.fields|, st);
      RoundUpAligns(FieldsEnd(ty.fields, |ty.fields|, st), MaxAlign(ty.fields, |ty.fields|, st));
    }
  }

  lemma MultipleTimes(size: nat, align: nat, count: nat)
    requires align > 0 && size % align == 0
    ensures (size * count) % align == 0
  {
    var q := size / align;
    MulAssociative(align, q, count);
    DivModUnique(size * count, align, q * count, 0);
  }

  /** Element `k` of an array keeps the alignment of the element type. */
  lemma StrideKeepsAlignment(element: Type, st: Storage, base: nat, k: nat)
    requires Valid(st) && base % ExactAlign(element, st) == 0
    ensures (base + k * ExactSize(element, st)) % ExactAlign(element, st) == 0
  {
    hide Valid, ExactSize, ExactAlign;
    var align := ExactAlign(element, st);
    SizeIsMultiple(element, st);
    MultipleTimes(ExactSize(element, st), align, k);
    SumOfMultiples(base, k * ExactSize(element, st), align);
  }

  lemma SumOfMultiples(a: nat, b: nat, m: nat)
    requires m > 0 && a % m == 0 && b % m == 0
    ensures (a + b) % m == 0
  {
    assert m * (a / m + b / m) == m * (a / m) + m * (b / m);
    DivModUnique(a + b, m, a / m + b / m, 0);
  }

  lemma {:induction false} OffsetAt(fields: seq<Type>, n: nat, k: nat, st: Storage)
    requires Valid(st) && k < n <= |fields|
    ensures |FieldOffsets(fields, n, st)| == n && FieldOffsets(fields, n, st)[k] == FieldOffset(fields, k, st)
  {
    hide Valid, FieldOffset;
    OffsetCount(fields, n - 1, st);
    if k < n - 1 {
      OffsetAt(fields, n - 1, k, st);
    }
  }

  lemma {:induction false} OffsetCount(fields: seq<Type>, n: nat, st: Storage)
    requires Valid(st) && n <= |fields|
    ensures |FieldOffsets(fields, n, st)| == n
  {
    hide Valid, FieldOffset;
    if n > 0 {
      OffsetCount(fields, n - 1, st);
    }
  }

  lemma {:induction false} EndsGrow(fields: seq<Type>, j: nat, k: nat, st: Storage)
    requires Valid(st) && j <= k <= |fields|
    ensures FieldsEnd(fields, j, st) <= FieldsEnd(fields, k, st)
  {
    hide Valid, ExactSize, ExactAlign;
    if j < k {
      EndsGrow(fields, j, k - 1, st);
    }
  }

  /** The fields of a structure: each is aligned, lies at the least aligned offset
      behind the fields before it, ends inside the structure, and keeps its
      alignment wherever the structure itself is aligned. */
  lemma FieldsPlaced(ty: Type, st: Storage, depth: nat, k: nat)
    requires Valid(st) && (ty.Struct? || ty.Tuple?) && LayoutOf(ty, st, depth).Success?
    requires k < |ty.fields|
    ensures var layout, field := LayoutOf(ty, st, depth).value, ty.fields[k];
      && |layout.offsets| == |ty.fields|
      && layout.offsets[k] % ExactAlign(field, st) == 0
      && layout.offsets[k] + ExactSize(field, st) <= layout.size
      && (forall j | k < j < |ty.fields| :: layout.offsets[k] + ExactSize(field, st) <= layout.offsets[j])
      && (forall at: nat | at % ExactAlign(field, st) == 0
            && (k > 0 ==> at >= layout.offsets[k - 1] + ExactSize(ty.fields[k - 1], st)) :: layout.offsets[k] <= at)
      && layout.align % ExactAlign(field, st) == 0
  {
    hide Valid, LayoutOf, ExactAlign, RoundUp, Fits, FieldOffsets, MaxAlign;
    LayoutIsExact(ty, st, depth);
    var fields, align := ty.fields, ExactAlign(ty.fields[k], st);
    StructExact(ty, st);
    AlignNatural(fields[k], st);
    OffsetAt(fields, |fields|, k, st);
    RoundUpAligns(FieldsEnd(fields, k, st), align);
    EndsGrow(fields, k + 1, |fields|, st);
    forall j | k < j < |fields|
      ensures LayoutOf(ty, st, depth).value.offsets[k] + ExactSize(fields[k], st) <= LayoutOf(ty, st, depth).value.offsets[j]
    {
      OffsetAt(fields, |fields|, j, st);
      EndsGrow(fields, k + 1, j, st);
    }
    if k > 0 {
      OffsetAt(fields, |fields|, k - 1, st);
    }
    forall at: nat | at % align == 0 && at >= FieldsEnd(fields, k, st) ensures FieldOffset(fields, k, st) <= at {
      RoundUpLeast(FieldsEnd(fields, k, st), align, at);
    }
    MaxAlignNatural(fields, |fields|, st);
    NaturalDivides(align, MaxAlign(fields, |fields|, st));
  }

  lemma StructExact(ty: Type, st: Storage)
    requires Valid(st) && (ty.Struct? || ty.Tuple?)
    ensures ExactAlign(ty, st) == MaxAlign(ty.fields, |ty.fields|, st)
    ensures ExactSize(ty, st) >= FieldsEnd(ty.fields, |ty.fields|, st)
  {
    hide Valid, MaxAlign, FieldsEnd, RoundUp;
  }

  lemma NaturalDivides(a: nat, b: nat)
    requires Natural(a) && Natural(b) && a <= b
    ensures b % a == 0
  {
  }

  /** The rule for large arrays applies to a type. */
  ghost predicate IsLargeArray(ty: Type, st: Storage)
    requires Valid(st)
  {
    ty.Array? && st.largeArray.Some? && ExactSize(ty, st) >= st.largeArray.value.0
  }

  /** Placement of a whole object: a power of two that the natural alignment divides. It
      has an alignment exactly when the type has a layout; it is the natural one or,
      for a large array, the target's alignment for those, if that is larger. */
  lemma AllocationCoversNatural(ty: Type, st: Storage)
    ensures AllocationAlign(ty, st).Success? <==> LayoutForTarget(ty, st, 128).Success?
    ensures AllocationAlign(ty, st).Failure? ==> AllocationAlign(ty, st).error == LayoutForTarget(ty, st, 128).error
    ensures AllocationAlign(ty, st).Success? ==>
      && Valid(st)
      && var align, natural := AllocationAlign(ty, st).value, ExactAlign(ty, st);
         && IsPowerOfTwo(align) && align >= natural && align % natural == 0
         && (!IsLargeArray(ty, st) ==> align == natural)
         && (IsLargeArray(ty, st) ==> align >= st.largeArray.value.1)
         && (align > natural <==> IsLargeArray(ty, st) && natural < st.largeArray.value.1)
         && (align > natural ==> align == st.largeArray.value.1)
  {
    hide LayoutOf, ExactAlign, ExactSize, IsPowerOfTwo;
    if AllocationAlign(ty, st).Success? {
      AllocationIsRaised(ty, st);
    }
  }

  lemma AllocationIsRaised(ty: Type, st: Storage)
    requires AllocationAlign(ty, st).Success?
    ensures Valid(st)
    ensures var align, natural := AllocationAlign(ty, st).value, ExactAlign(ty, st);
      && IsPowerOfTwo(align) && align >= natural && align % natural == 0
      && align == if IsLargeArray(ty, st) then Max(natural, st.largeArray.value.1) else natural
  {
    hide LayoutOf, ExactAlign, ExactSize, IsPowerOfTwo;
    LayoutIsExact(ty, st, 128);
    AlignNatural(ty, st);
    var align := AllocationAlign(ty, st).value;
    NaturalIsPower(ExactAlign(ty, st));
    PowersDivide(ExactAlign(ty, st), align);
  }

  lemma {:induction false} PowersDivide(a: nat, b: nat)
    requires Natural(a) && IsPowerOfTwo(b) && a <= b
    ensures b % a == 0
  {
    if b <= 16 {
      SmallPower(b);
    } else {
      if b / 2 <= 16 {
        SmallPower(b / 2);
      }
      PowersDivide(a, b / 2);
      assert b == 2 * (b / 2);
    }
  }

  /** A type that is `void`, or stores something that is. */
  ghost predicate HasVoid(ty: Type) {
    match ty
    case Void => true
    case Array(element, _) => HasVoid(element)
    case Struct(fields) => exists k: nat | k < |fields| :: HasVoid(fields[k])
    case Tuple(fields) => exists k: nat | k < |fields| :: HasVoid(fields[k])
    case _ => false
  }

  /** More than `depth` arrays, structures and tuples inside one another. */
  ghost predicate TooDeep(ty: Type, depth: nat) {
    match ty
    case Array(element, _) => depth == 0 || TooDeep(element, depth - 1)
    case Struct(fields) => depth == 0 || exists k: nat | k < |fields| :: TooDeep(fields[k], depth - 1)
    case Tuple(fields) => depth == 0 || exists k: nat | k < |fields| :: TooDeep(fields[k], depth - 1)
    case _ => false
  }

  /** Some stored part does not fit the address width. */
  ghost predicate TooLarge(ty: Type, st: Storage)
    requires Valid(st)
  {
    || ExactSize(ty, st) > MaxSize(st)
    || match ty
       case Array(element, _) => TooLarge(element, st)
       case Struct(fields) => exists k: nat | k < |fields| :: TooLarge(fields[k], st)
       case Tuple(fields) => exists k: nat | k < |fields| :: TooLarge(fields[k], st)
       case _ => false
  }

  /** The cause that an error stands for. */
  ghost predicate HasCause(ty: Type, st: Storage, depth: nat, error: LayoutError)
    requires Valid(st)
  {
    match error
    case VoidType => HasVoid(ty)
    case DepthLimit => TooDeep(ty, depth)
    case Overflow => TooLarge(ty, st)
    case InvalidTarget => false
  }

  /** Every error of a layout has its own cause in the type. */
  lemma {:induction false} ErrorHasCause(ty: Type, st: Storage, depth: nat)
    requires Valid(st) && LayoutOf(ty, st, depth).Failure?
    ensures HasCause(ty, st, depth, LayoutOf(ty, st, depth).error)
    decreases ty, 0
  {
    hide Valid, StructLayout, RoundUp, FieldsEnd, MaxAlign;
    LayoutIsExact(ty, st, depth);
    if Scalar(ty, st).Some? {
      assert LayoutOf(ty, st, depth).error == Overflow;
    } else if ty.Array? && depth > 0 {
      if LayoutOf(ty.element, st, depth - 1).Failure? {
        ErrorHasCause(ty.element, st, depth - 1);
      } else {
        LayoutIsExact(ty.element, st, depth - 1);
      }
    } else if (ty.Struct? || ty.Tuple?) && depth > 0 {
      StructErrorHasCause(ty, st, depth);
    }
  }

  lemma {:induction false} StructErrorHasCause(ty: Type, st: Storage, depth: nat)
    requires Valid(st) && (ty.Struct? || ty.Tuple?) && depth > 0
    requires LayoutOf(ty, st, depth).Failure?
    ensures HasCause(ty, st, depth, LayoutOf(ty, st, depth).error)
    decreases ty.fields, |ty.fields| + 1
  {
    hide Valid, AlignUp, FieldsLayout, FieldsEnd, MaxAlign, RoundUp, HasVoid, TooDeep, TooLarge;
    var fields := ty.fields;
    var error := LayoutOf(ty, st, depth).error;
    FieldsAreExact(fields, |fields|, st, depth - 1);
    MaxAlignNatural(fields, |fields|, st);
    AlignUpRounds(FieldsEnd(fields, |fields|, st), MaxAlign(fields, |fields|, st));
    if FieldsLayout(fields, |fields|, st, depth - 1).Failure? {
      var k := FieldErrorHasCause(fields, |fields|, st, depth - 1);
      if k < |fields| {
        PartHasCause(ty, st, depth, k, error);
      } else {
        StructTooLarge(ty, st);
      }
    } else {
      StructTooLarge(ty, st);
    }
  }

  lemma PartHasCause(ty: Type, st: Storage, depth: nat, k: nat, error: LayoutError)
    requires Valid(st) && (ty.Struct? || ty.Tuple?) && depth > 0 && k < |ty.fields|
    requires HasCause(ty.fields[k], st, depth - 1, error)
    ensures HasCause(ty, st, depth, error)
  {
    hide Valid, ExactSize;
  }

  lemma StructTooLarge(ty: Type, st: Storage)
    requires Valid(st) && (ty.Struct? || ty.Tuple?)
    ensures RoundUp(FieldsEnd(ty.fields, |ty.fields|, st), MaxAlign(ty.fields, |ty.fields|, st)) > MaxSize(st)
      ==> TooLarge(ty, st)
  {
    hide FieldsEnd, MaxAlign, RoundUp;
  }

  /** The field whose own error it is, or the end of the fields for an overflow behind them. */
  lemma {:induction false} FieldErrorHasCause(fields: seq<Type>, n: nat, st: Storage, depth: nat) returns (k: nat)
    requires Valid(st) && n <= |fields| && FieldsLayout(fields, n, st, depth).Failure?
    ensures k < |fields| ==> HasCause(fields[k], st, depth, FieldsLayout(fields, n, st, depth).error)
    ensures k >= |fields| ==>
      FieldsLayout(fields, n, st, depth).error == Overflow && FieldsEnd(fields, |fields|, st) >= WORD_64
    decreases fields, n
  {
    hide Valid, AlignUp, RoundUp, HasCause, ExactSize, ExactAlign;
    var before := FieldsLayout(fields, n - 1, st, depth);
    if before.Failure? {
      k := FieldErrorHasCause(fields, n - 1, st, depth);
    } else if LayoutOf(fields[n - 1], st, depth).Failure? {
      k := n - 1;
      ErrorHasCause(fields[k], st, depth);
    } else {
      k := |fields|;
      FieldsAreExact(fields, n - 1, st, depth);
      FieldsAreExact(fields, n, st, depth);
      LayoutIsExact(fields[n - 1], st, depth);
      EndsGrow(fields, n, |fields|, st);
      AlignNatural(fields[n - 1], st);
      AlignUpRounds(FieldsEnd(fields, n - 1, st), ExactAlign(fields[n - 1], st));
    }
  }
}
