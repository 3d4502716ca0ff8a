/** Natural storage layout of IR types on an explicit target. */
module TypeLayout {
  import opened Bits
  import opened Wrappers
  import opened IrTypes

  /** Alignments of scalars of 1, 2, 4, 8 and 16 bytes, and of pointers. */
  datatype Storage = Storage(
    ptrBits: nat, scalarAlign: seq<nat>, pointerAlign: nat, largeArray: Option<(nat, nat)>)

  datatype Layout = Layout(size: nat, align: nat, offsets: seq<nat>, stride: Option<nat>)

  datatype LayoutError = VoidType | Overflow | DepthLimit | InvalidTarget

  /** `StorageLayout::validate`. */
  predicate Valid(st: Storage) {
    && (st.ptrBits == 32 || st.ptrBits == 64)
    && |st.scalarAlign| == 5
    && (forall i | 0 <= i < 5 :: IsPowerOfTwo(st.scalarAlign[i]))
    && IsPowerOfTwo(st.pointerAlign)
    && (st.largeArray.Some? ==> IsPowerOfTwo(st.largeArray.value.1))
    && st.scalarAlign[0] <= 1 && st.scalarAlign[1] <= 2 && st.scalarAlign[2] <= 4
    && st.scalarAlign[3] <= 8 && st.scalarAlign[4] <= 16
    && st.pointerAlign <= st.ptrBits / 8
  }

  function MaxSize(st: Storage): nat {
    if st.ptrBits == 32 then 0xffff_ffff else WORD_64 - 1
  }

  /** Size and alignment of a type without parts. */
  function Scalar(ty: Type, st: Storage): Option<(nat, nat)>
    requires Valid(st)
  {
    match ty
    case Bool => Some((1, st.scalarAlign[0]))
    case I1 => Some((1, st.scalarAlign[0]))
    case U1 => Some((1, st.scalarAlign[0]))
    case I8 => Some((1, st.scalarAlign[0]))
    case U8 => Some((1, st.scalarAlign[0]))
    case I16 => Some((2, st.scalarAlign[1]))
    case U16 => Some((2, st.scalarAlign[1]))
    case F16 => Some((2, st.scalarAlign[1]))
    case I32 => Some((4, st.scalarAlign[2]))
    case U32 => Some((4, st.scalarAlign[2]))
    case F32 => Some((4, st.scalarAlign[2]))
    case I64 => Some((8, st.scalarAlign[3]))
    case U64 => Some((8, st.scalarAlign[3]))
    case F64 => Some((8, st.scalarAlign[3]))
    case I128 => Some((16, st.scalarAlign[4]))
    case U128 => Some((16, st.scalarAlign[4]))
    case Ptr(_) => Some((st.ptrBits / 8, st.pointerAlign))
    case FnPtr(_) => Some((st.ptrBits / 8, st.pointerAlign))
    case _ => None
  }

  /** `align_up`, with the bit mask and the overflow check of the program. */
  function AlignUp(size: nat, align: nat): Result<nat, LayoutError>
    requires align > 0
  {
    var padded := size + Padding(size, align);
    if padded >= WORD_64 then Failure(Overflow) else Success(padded)
  }

  function Max(a: nat, b: nat): nat {
    if a >= b then a else b
  }

  function Bounded(layout: Layout, st: Storage): Result<Layout, LayoutError> {
    if layout.size > MaxSize(st) then Failure(Overflow) else Success(layout)
  }

  /** `layout_storage`. */
  function LayoutOf(ty: Type, st: Storage, depth: nat): (r: Result<Layout, LayoutError>)
    requires Valid(st)
    ensures r.Success? ==> r.value.align > 0
    decreases ty, 0
  {
    var scalar := Scalar(ty, st);
    if scalar.Some? then
      PowerPositive(scalar.value.1);
      Bounded(Layout(scalar.value.0, scalar.value.1, [], None), st)
    else
      match ty
      case Array(element, count) =>
        if depth == 0 then Failure(DepthLimit)
        else
          var inner := LayoutOf(element, st, depth - 1);
          if inner.Failure? then inner
          else if inner.value.size * count >= WORD_64 then Failure(Overflow)
          else Bounded(Layout(inner.value.size * count, inner.value.align, [], Some(inner.value.size)), st)
      case Struct(fields) => if depth == 0 then Failure(DepthLimit) else StructLayout(fields, st, depth - 1)
      case Tuple(fields) => if depth == 0 then Failure(DepthLimit) else StructLayout(fields, st, depth - 1)
      case _ => Failure(VoidType)
  }

  function StructLayout(fields: seq<Type>, st: Storage, depth: nat): (r: Result<Layout, LayoutError>)
    requires Valid(st)
    ensures r.Success? ==> r.value.align > 0
    decreases fields, |fields| + 1
  {
    var run := FieldsLayout(fields, |fields|, st, depth);
    if run.Failure? then run
    else
      var size := AlignUp(run.value.size, run.value.align);
      if size.Failure? then Failure(size.error) else Bounded(run.value.(size := size.value), st)
  }

  /** The running layout after the first `n` fields. */
  function FieldsLayout(fields: seq<Type>, n: nat, st: Storage, depth: nat): (r: Result<Layout, LayoutError>)
    requires Valid(st) && n <= |fields|
    ensures r.Success? ==> r.value.align > 0
    decreases fields, n
  {
    if n == 0 then Success(Layout(0, 1, [], None))
    else
      var run := FieldsLayout(fields, n - 1, st, depth);
      if run.Failure? then run
      else
        var field := LayoutOf(fields[n - 1], st, depth);
        if field.Failure? then field
        else AddField(run.value, field.value)
  }

  /** One turn of the field loop. */
  function AddField(run: Layout, field: Layout): (r: Result<Layout, LayoutError>)
    requires field.align > 0
    ensures r.Success? ==> r.value.align > 0
  {
    var offset := AlignUp(run.size, field.align);
    if offset.Failure? then Failure(offset.error)
    else if offset.value + field.size >= WORD_64 then Failure(Overflow)
    else
      Success(Layout(offset.value + field.size, Max(run.align, field.align), run.offsets + [offset.value], None))
  }

  lemma PowerPositive(n: nat)
    requires IsPowerOfTwo(n)
    ensures n > 0
  {
  }

  /** The recursion of the program, with its loop over the fields. */
  method LayoutStorage(ty: Type, st: Storage, depth: nat) returns (r: Result<Layout, LayoutError>)
    requires Valid(st)
    ensures r == LayoutOf(ty, st, depth)
    decreases ty
  {
    hide Valid, AddField, AlignUp, Bounded;
    var scalar := Scalar(ty, st);
    if scalar.Some? {
      return Bounded(Layout(scalar.value.0, scalar.value.1, [], None), st);
    }
    if ty.Void? {
      return Failure(VoidType);
    }
    if depth == 0 {
      return Failure(DepthLimit);
    }
    if ty.Array? {
      var inner := LayoutStorage(ty.element, st, depth - 1);
      if inner.Failure? {
        return inner;
      }
      if inner.value.size * ty.count >= WORD_64 {
        return Failure(Overflow);
      }
      return Bounded(Layout(inner.value.size * ty.count, inner.value.align, [], Some(inner.value.size)), st);
    }
    var fields := ty.fields;
    var result := Layout(0, 1, [], None);
    for n := 0 to |fields|
      invariant FieldsLayout(fields, n, st, depth - 1) == Success(result)
    {
      var field := LayoutStorage(fields[n], st, depth - 1);
      if field.Failure? {
        FieldFailure(fields, n + 1, |fields|, st, depth - 1);
        return field;
      }
      var next := AddField(result, field.value);
      if next.Failure? {
        FieldFailure(fields, n + 1, |fields|, st, depth - 1);
        return next;
      }
      result := next.value;
    }
    var size := AlignUp(result.size, result.align);
    if size.Failure? {
      return Failure(size.error);
    }
    return Bounded(result.(size := size.value), st);
  }

  lemma {:induction false} FieldFailure(fields: seq<Type>, k: nat, n: nat, st: Storage, depth: nat)
    requires Valid(st) && k <= n <= |fields| && FieldsLayout(fields, k, st, depth).Failure?
    ensures FieldsLayout(fields, n, st, depth) == FieldsLayout(fields, k, st, depth)
  {
    hide Valid, AddField;
    if k < n {
      FieldFailure(fields, k, n - 1, st, depth);
    }
  }

  /** `layout_for_target`: the target is validated and the depth clamped. */
  function LayoutForTarget(ty: Type, st: Storage, maxDepth: nat): Result<Layout, LayoutError> {
    if !Valid(st) then Failure(InvalidTarget)
    else LayoutOf(ty, st, if maxDepth <= MAX_IR_NESTING then maxDepth else MAX_IR_NESTING)
  }

  /** `allocation_align_for_target`. */
  function AllocationAlign(ty: Type, st: Storage): Result<nat, LayoutError> {
    var layout := LayoutForTarget(ty, st, 128);
    if layout.Failure? then Failure(layout.error)
    else if st.largeArray.Some? && ty.Array? && layout.value.size >= st.largeArray.value.0 then
      Success(Max(layout.value.align, st.largeArray.value.1))
    else Success(layout.value.align)
  }
}
