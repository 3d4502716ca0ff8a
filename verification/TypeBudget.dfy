/**
  The node and depth budget that guards recursive work on types, signatures and
  constant expressions. Traversals use a worklist and stop at the first breach.
 */
module TypeBudget {
  import opened Wrappers
  import opened IrTypes
  import opened ConstEval

  datatype Resource = TypeDepth | ConstantDepth | Nodes | Configuration

  datatype LimitError = LimitError(resource: Resource, limit: nat)

  datatype Limits = Limits(maxTypeDepth: nat, maxConstDepth: nat, maxNodes: nat)

  /** The number of nodes of a type tree. */
  function Count(ty: Type): (n: nat)
    ensures n > 0
  {
    match ty
    case Ptr(inner) => 1 + Count(inner)
    case Array(element, _) => 1 + Count(element)
    case Struct(fields) => 1 + CountAll(fields)
    case Tuple(fields) => 1 + CountAll(fields)
    case FnPtr(signature) => 1 + CountAll(signature.params) + Count(signature.ret)
    case _ => 1
  }

  function CountAll(types: seq<Type>): (n: nat)
    ensures n >= |types|
  {
    if types == [] then 0 else Count(types[0]) + CountAll(types[1..])
  }

  /** Every node below `ty`, which is at this depth, is within the limit. */
  predicate Within(ty: Type, depth: nat, limit: nat) {
    depth <= limit &&
    match ty
    case Ptr(inner) => Within(inner, depth + 1, limit)
    case Array(element, _) => Within(element, depth + 1, limit)
    case Struct(fields) => AllWithin(fields, depth + 1, limit)
    case Tuple(fields) => AllWithin(fields, depth + 1, limit)
    case FnPtr(signature) => AllWithin(signature.params, depth + 1, limit) && Within(signature.ret, depth + 1, limit)
    case _ => true
  }

  predicate AllWithin(types: seq<Type>, depth: nat, limit: nat) {
    types == [] || (Within(types[0], depth, limit) && AllWithin(types[1..], depth, limit))
  }

  /** Entries of a worklist: types with their depths. The last one is next. */
  type Work = seq<(Type, nat)>

  function WorkCount(work: Work): (n: nat)
    ensures n >= |work|
  {
    if work == [] then 0 else WorkCount(work[..|work| - 1]) + Count(work[|work| - 1].0)
  }

  predicate WorkWithin(work: Work, limit: nat) {
    work == []
    || (WorkWithin(work[..|work| - 1], limit) && Within(work[|work| - 1].0, work[|work| - 1].1, limit))
  }

  /** `pending.extend(ts.iter().rev().map(…))`. */
  function Extended(work: Work, types: seq<Type>, depth: nat): (r: Work)
    ensures |r| == |work| + |types|
  {
    if types == [] then work else Extended(work, types[1..], depth) + [(types[0], depth)]
  }

  lemma {:induction false} ExtendedWork(work: Work, types: seq<Type>, depth: nat, limit: nat)
    ensures WorkCount(Extended(work, types, depth)) == WorkCount(work) + CountAll(types)
    ensures WorkWithin(Extended(work, types, depth), limit) <==>
      WorkWithin(work, limit) && AllWithin(types, depth, limit)
  {
    hide Count, Within;
    if types != [] {
      ExtendedWork(work, types[1..], depth, limit);
      var rest := Extended(work, types[1..], depth);
      assert (rest + [(types[0], depth)])[..|rest|] == rest;
    }
  }

  /** The worklist after one node has been replaced by its children. */
  function Expand(work: Work, ty: Type, depth: nat): Work {
    match ty
    case Ptr(inner) => work + [(inner, depth)]
    case Array(element, _) => work + [(element, depth)]
    case Struct(fields) => Extended(work, fields, depth)
    case Tuple(fields) => Extended(work, fields, depth)
    case FnPtr(signature) => Extended(work + [(signature.ret, depth)], signature.params, depth)
    case _ => work
  }

  lemma PushedWork(work: Work, ty: Type, depth: nat, limit: nat)
    ensures WorkCount(work + [(ty, depth)]) == WorkCount(work) + Count(ty)
    ensures WorkWithin(work + [(ty, depth)], limit) <==> WorkWithin(work, limit) && Within(ty, depth, limit)
  {
    assert (work + [(ty, depth)])[..|work|] == work;
  }

  lemma ExpandedWork(work: Work, ty: Type, depth: nat, limit: nat)
    ensures 1 + WorkCount(Expand(work, ty, depth + 1)) == WorkCount(work) + Count(ty)
    ensures depth <= limit ==>
      WorkWithin(Expand(work, ty, depth + 1), limit) == (WorkWithin(work, limit) && Within(ty, depth, limit))
  {
    hide WorkCount, WorkWithin, CountAll, AllWithin, Extended;
    match ty
    case Ptr(inner) => PushedWork(work, inner, depth + 1, limit);
    case Array(element, _) => PushedWork(work, element, depth + 1, limit);
    case Struct(fields) => ExtendedWork(work, fields, depth + 1, limit);
    case Tuple(fields) => ExtendedWork(work, fields, depth + 1, limit);
    case FnPtr(signature) =>
      PushedWork(work, signature.ret, depth + 1, limit);
      ExtendedWork(work + [(signature.ret, depth + 1)], signature.params, depth + 1, limit);
    case _ =>
  }

  /** The children of a node that may have many, all pushed at once. */
  function Wide(ty: Type): nat {
    match ty
    case Struct(fields) => |fields|
    case Tuple(fields) => |fields|
    case FnPtr(signature) => |signature.params| + 1
    case _ => 0
  }

  lemma WideCount(ty: Type)
    ensures Count(ty) > Wide(ty)
  {
    hide CountAll;
  }

  lemma ExpandedLength(work: Work, ty: Type, depth: nat)
    ensures |Expand(work, ty, depth)| == |work| + if ty.Ptr? || ty.Array? then 1 else Wide(ty)
  {
    hide Extended;
  }

  lemma TooDeep(ty: Type, depth: nat, limit: nat)
    requires depth > limit
    ensures !Within(ty, depth, limit)
  {
    hide AllWithin;
  }

  lemma NoWork(limit: nat)
    ensures WorkCount([]) == 0 && WorkWithin([], limit)
  {
  }

  /** The nodes charged for a signature and for a constant expression. */
  function SignatureCount(signature: Signature): nat {
    1 + Count(signature.ret) + CountAll(signature.params)
  }

  predicate SignatureWithin(signature: Signature, limit: nat) {
    Within(signature.ret, 0, limit) && AllWithin(signature.params, 0, limit)
  }

  function ExprCount(e: ConstExpr): (n: nat)
    ensures n > 1
  {
    1 + Count(e.ty) +
    match e.kind
    case Neg(x) => ExprCount(x)
    case Not(x) => ExprCount(x)
    case Binary(_, left, right) => ExprCount(left) + ExprCount(right)
    case Compare(_, left, right) => ExprCount(left) + ExprCount(right)
    case _ => 0
  }

  predicate ExprWithin(e: ConstExpr, depth: nat, limits: Limits) {
    && depth <= limits.maxConstDepth
    && Within(e.ty, 0, limits.maxTypeDepth)
    && match e.kind
       case Neg(x) => ExprWithin(x, depth + 1, limits)
       case Not(x) => ExprWithin(x, depth + 1, limits)
       case Binary(_, left, right) => ExprWithin(left, depth + 1, limits) && ExprWithin(right, depth + 1, limits)
       case Compare(_, left, right) => ExprWithin(left, depth + 1, limits) && ExprWithin(right, depth + 1, limits)
       case _ => true
  }

  type ExprWork = seq<(ConstExpr, nat)>

  function ExprWorkCount(work: ExprWork): nat {
    if work == [] then 0 else ExprWorkCount(work[..|work| - 1]) + ExprCount(work[|work| - 1].0)
  }

  predicate ExprWorkWithin(work: ExprWork, limits: Limits) {
    work == []
    || (ExprWorkWithin(work[..|work| - 1], limits) && ExprWithin(work[|work| - 1].0, work[|work| - 1].1, limits))
  }

  lemma PushedExpr(work: ExprWork, e: ConstExpr, depth: nat, limits: Limits)
    ensures ExprWorkCount(work + [(e, depth)]) == ExprWorkCount(work) + ExprCount(e)
    ensures ExprWorkWithin(work + [(e, depth)], limits) <==> ExprWorkWithin(work, limits) && ExprWithin(e, depth, limits)
  {
    assert (work + [(e, depth)])[..|work|] == work;
  }

  function ExpandExpr(work: ExprWork, e: ConstExpr, depth: nat): ExprWork {
    match e.kind
    case Neg(x) => work + [(x, depth)]
    case Not(x) => work + [(x, depth)]
    case Binary(_, left, right) => work + [(right, depth)] + [(left, depth)]
    case Compare(_, left, right) => work + [(right, depth)] + [(left, depth)]
    case _ => work
  }

  lemma ExpandedExpr(work: ExprWork, e: ConstExpr, depth: nat, limits: Limits)
    ensures 1 + Count(e.ty) + ExprWorkCount(ExpandExpr(work, e, depth + 1)) == ExprWorkCount(work) + ExprCount(e)
    ensures depth <= limits.maxConstDepth && Within(e.ty, 0, limits.maxTypeDepth) ==>
      ExprWorkWithin(ExpandExpr(work, e, depth + 1), limits)
      == (ExprWorkWithin(work, limits) && ExprWithin(e, depth, limits))
  {
    hide ExprWorkCount, ExprWorkWithin, Count, Within;
    match e.kind
    case Neg(x) => PushedExpr(work, x, depth + 1, limits);
    case Not(x) => PushedExpr(work, x, depth + 1, limits);
    case Binary(_, left, right) =>
      PushedExpr(work, right, depth + 1, limits);
      PushedExpr(work + [(right, depth + 1)], left, depth + 1, limits);
    case Compare(_, left, right) =>
      PushedExpr(work, right, depth + 1, limits);
      PushedExpr(work + [(right, depth + 1)], left, depth + 1, limits);
    case _ =>
  }

  /** The report of a traversal that needs `count` nodes, is within the depth limits
      when `within` holds, and had `before` nodes left: success exactly when both
      fit, charging exactly the nodes; each error only for its own breach. */
  ghost predicate Charged(
    error: Option<LimitError>, limits: Limits, count: nat, within: bool, before: nat, after: nat)
  {
    && after <= before
    && (error.None? <==> within && count <= before)
    && (error.None? ==> after == before - count)
    && (error.Some? ==>
         || (error == Some(LimitError(Nodes, limits.maxNodes)) && count > before)
         || (error == Some(LimitError(TypeDepth, limits.maxTypeDepth)) && !within)
         || (error == Some(LimitError(ConstantDepth, limits.maxConstDepth)) && !within))
  }

  class Budget {
    const limits: Limits
    var remaining: nat

    constructor (limits: Limits)
      ensures this.limits == limits && remaining == limits.maxNodes
    {
      this.limits, remaining := limits, limits.maxNodes;
    }

    method Charge(n: nat) returns (error: Option<LimitError>)
      modifies this`remaining
      ensures Charged(error, limits, n, true, old(remaining), remaining)
      ensures error.Some? ==> remaining == old(remaining)
    {
      if n > remaining {
        return Some(LimitError(Nodes, limits.maxNodes));
      }
      remaining := remaining - n;
      return None;
    }

    /** `peak` is the longest the worklist ever gets. */
    method Ty(root: Type) returns (error: Option<LimitError>, ghost peak: nat)
      modifies this`remaining
      ensures Charged(error, limits, Count(root), Within(root, 0, limits.maxTypeDepth), old(remaining), remaining)
      ensures error.Some? ==> !error.value.resource.ConstantDepth?
      ensures peak <= 1 || peak <= old(remaining)
    {
      hide Count, Within, WorkCount, WorkWithin, Expand, Extended;
      ghost var limit := limits.maxTypeDepth;
      var pending: Work := [] + [(root, 0)];
      peak := 1;
      NoWork(limit);
      PushedWork([], root, 0, limit);
      while pending != []
        invariant remaining <= old(remaining) && |pending| <= peak
        invariant peak <= 1 || peak <= old(remaining)
        invariant old(remaining) - remaining + WorkCount(pending) == Count(root)
        invariant WorkWithin(pending, limit) == Within(root, 0, limit)
        decreases remaining, |pending|
      {
        var (ty, depth) := pending[|pending| - 1];
        ghost var before := pending;
        pending := pending[..|pending| - 1];
        assert before == pending + [(ty, depth)];
        PushedWork(pending, ty, depth, limit);
        error := Charge(1);
        if error.Some? {
          return;
        }
        if depth > limits.maxTypeDepth {
          TooDeep(ty, depth, limit);
          return Some(LimitError(TypeDepth, limits.maxTypeDepth)), peak;
        }
        if Wide(ty) > 0 && |pending| + Wide(ty) > remaining {
          WideCount(ty);
          return Some(LimitError(Nodes, limits.maxNodes)), peak;
        }
        ExpandedWork(pending, ty, depth, limit);
        ExpandedLength(pending, ty, depth + 1);
        pending := Expand(pending, ty, depth + 1);
        peak := if |pending| > peak then |pending| else peak;
      }
      NoWork(limit);
      return None, peak;
    }

    method Signature(signature: Signature) returns (error: Option<LimitError>)
      modifies this`remaining
      ensures Charged(error, limits, SignatureCount(signature), SignatureWithin(signature, limits.maxTypeDepth),
        old(remaining), remaining)
    {
      hide Count, Within, CountAll, AllWithin;
      error := Charge(1);
      if error.Some? {
        return;
      }
      ghost var peak;
      error, peak := Ty(signature.ret);
      if error.Some? {
        return;
      }
      ghost var spent := 1 + Count(signature.ret);
      var params := signature.params;
      assert params[0..] == params;
      for i := 0 to |params|
        invariant remaining <= old(remaining) && error.None?
        invariant old(remaining) - remaining + CountAll(params[i..]) == spent + CountAll(params)
        invariant AllWithin(params[i..], 0, limits.maxTypeDepth) == AllWithin(params, 0, limits.maxTypeDepth)
      {
        FirstParam(params[i..], limits.maxTypeDepth);
        assert params[i..][1..] == params[i + 1..];
        error, peak := Ty(params[i]);
        if error.Some? {
          return;
        }
      }
      assert params[|params|..] == [];
      NoParams(limits.maxTypeDepth);
    }

    method Expression(root: ConstExpr) returns (error: Option<LimitError>)
      modifies this`remaining
      ensures Charged(error, limits, ExprCount(root), ExprWithin(root, 0, limits), old(remaining), remaining)
    {
      hide Count, Within, ExprCount, ExprWithin, ExprWorkCount, ExprWorkWithin, ExpandExpr;
      var pending: ExprWork := [] + [(root, 0)];
      NoExprWork(limits);
      PushedExpr([], root, 0, limits);
      while pending != []
        invariant remaining <= old(remaining)
        invariant old(remaining) - remaining + ExprWorkCount(pending) == ExprCount(root)
        invariant ExprWorkWithin(pending, limits) == ExprWithin(root, 0, limits)
        decreases remaining
      {
        var (e, depth) := pending[|pending| - 1];
        ghost var before := pending;
        pending := pending[..|pending| - 1];
        assert before == pending + [(e, depth)];
        PushedExpr(pending, e, depth, limits);
        ExprParts(e, depth, limits);
        error := Charge(1);
        if error.Some? {
          return;
        }
        if depth > limits.maxConstDepth {
          return Some(LimitError(ConstantDepth, limits.maxConstDepth));
        }
        ghost var peak;
        error, peak := Ty(e.ty);
        if error.Some? {
          return;
        }
        ExpandedExpr(pending, e, depth, limits);
        pending := ExpandExpr(pending, e, depth + 1);
      }
      NoExprWork(limits);
      return None;
    }
  }

  lemma FirstParam(types: seq<Type>, limit: nat)
    requires types != []
    ensures CountAll(types) == Count(types[0]) + CountAll(types[1..])
    ensures AllWithin(types, 0, limit) == (Within(types[0], 0, limit) && AllWithin(types[1..], 0, limit))
  {
  }

  lemma NoParams(limit: nat)
    ensures CountAll([]) == 0 && AllWithin([], 0, limit)
  {
  }

  lemma NoExprWork(limits: Limits)
    ensures ExprWorkCount([]) == 0 && ExprWorkWithin([], limits)
  {
  }

  lemma ExprParts(e: ConstExpr, depth: nat, limits: Limits)
    ensures ExprCount(e) > Count(e.ty)
    ensures ExprWithin(e, depth, limits) ==> depth <= limits.maxConstDepth && Within(e.ty, 0, limits.maxTypeDepth)
  {
    hide Count, Within;
  }

  /** `Budget::new`: depth limits beyond the safety ceiling are refused. */
  method Create(limits: Limits) returns (r: Result<Budget, LimitError>)
    ensures r.Success? <==> limits.maxTypeDepth <= MAX_IR_NESTING && limits.maxConstDepth <= MAX_IR_NESTING
    ensures r.Success? ==> fresh(r.value) && r.value.limits == limits && r.value.remaining == limits.maxNodes
    ensures r.Failure? ==> r.error == LimitError(Configuration, MAX_IR_NESTING)
  {
    if limits.maxTypeDepth > MAX_IR_NESTING || limits.maxConstDepth > MAX_IR_NESTING {
      return Failure(LimitError(Configuration, MAX_IR_NESTING));
    }
    var budget := new Budget(limits);
    return Success(budget);
  }
}
