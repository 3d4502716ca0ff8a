/** The evaluator that runs: explicit stacks instead of recursion. */
module ConstMachine {
  import opened Bits
  import opened Wrappers
  import opened IrTypes
  import opened ConstArith
  import opened ConstRefine
  import opened ConstEval

  function Size(e: ConstExpr): (n: nat)
    ensures n > 0
  {
    match e.kind
    case Neg(x) => 2 + Size(x)
    case Not(x) => 2 + Size(x)
    case Binary(_, left, right) => 4 + Size(left) + Size(right)
    case Compare(_, left, right) => 4 + Size(left) + Size(right)
    case _ => 1
  }

  function Children(e: ConstExpr): seq<ConstExpr> {
    match e.kind
    case Neg(x) => [x]
    case Not(x) => [x]
    case Binary(_, left, right) => [left, right]
    case Compare(_, left, right) => [left, right]
    case _ => []
  }

  /** The reference nodes of a tree. */
  ghost function References(e: ConstExpr): set<ConstExpr> {
    match e.kind
    case Neg(x) => References(x)
    case Not(x) => References(x)
    case Binary(_, left, right) => References(left) + References(right)
    case Compare(_, left, right) => References(left) + References(right)
    case Reference(_) => {e}
    case Literal(_) => {}
  }

  /** Different reference nodes are different places in memory. */
  ghost predicate DistinctNodes(e: ConstExpr) {
    forall x, y | x in References(e) && y in References(e) && x.id == y.id :: x == y
  }

  // ----- validation

  ghost function StackSize(stack: seq<ConstExpr>): nat {
    if stack == [] then 0 else StackSize(stack[..|stack| - 1]) + Size(stack[|stack| - 1])
  }

  /** The first fault of the trees on a stack, from the top down. */
  ghost function StackFault(host: Host, stack: seq<ConstExpr>): Option<Fault> {
    if stack == [] then None
    else
      var top := FirstFault(host, stack[|stack| - 1]);
      if top.Some? then top else StackFault(host, stack[..|stack| - 1])
  }

  ghost function StackReferences(stack: seq<ConstExpr>): set<ConstExpr> {
    if stack == [] then {} else StackReferences(stack[..|stack| - 1]) + References(stack[|stack| - 1])
  }

  /** Every reference is resolved or still on the stack. */
  ghost predicate ResolvedOrPending(
    host: Host, root: ConstExpr, stack: seq<ConstExpr>, resolved: map<nat, ConstValue>)
  {
    && StackReferences(stack) <= References(root)
    && forall x | x in References(root) && x !in StackReferences(stack) ::
         IsResolved(host, x, resolved)
  }

  ghost predicate IsResolved(host: Host, x: ConstExpr, resolved: map<nat, ConstValue>) {
    && x.kind.Reference? && host.resolve(x.kind.target).Some?
    && x.id in resolved && resolved[x.id] == host.resolve(x.kind.target).value.1
  }

  ghost predicate AllResolved(host: Host, e: ConstExpr, resolved: map<nat, ConstValue>) {
    forall x | x in References(e) :: IsResolved(host, x, resolved)
  }

  function Pushed(stack: seq<ConstExpr>, e: ConstExpr): seq<ConstExpr> {
    match e.kind
    case Neg(x) => stack + [x]
    case Not(x) => stack + [x]
    case Binary(_, left, right) => stack + [right, left]
    case Compare(_, left, right) => stack + [right, left]
    case _ => stack
  }

  lemma StackTop(stack: seq<ConstExpr>, e: ConstExpr)
    ensures (stack + [e])[..|stack|] == stack && (stack + [e])[|stack|] == e
  {
  }

  /** Replacing a checked node by its children keeps what remains to be found. */
  lemma PushChildren(host: Host, stack: seq<ConstExpr>, e: ConstExpr)
    requires LocalError(host, e).None?
    ensures StackFault(host, Pushed(stack, e)) == StackFault(host, stack + [e])
    ensures StackSize(Pushed(stack, e)) < StackSize(stack + [e])
    ensures StackReferences(stack + [e]) ==
      StackReferences(Pushed(stack, e)) + if e.kind.Reference? then {e} else {}
  {
    StackTop(stack, e);
    match e.kind
    case Neg(x) => StackTop(stack, x);
    case Not(x) => StackTop(stack, x);
    case Binary(_, left, right) => PushTwo(host, stack, left, right);
    case Compare(_, left, right) => PushTwo(host, stack, left, right);
    case _ =>
  }

  lemma PushTwo(host: Host, stack: seq<ConstExpr>, left: ConstExpr, right: ConstExpr)
    ensures var pushed := stack + [right, left];
            && StackSize(pushed) == StackSize(stack) + Size(left) + Size(right)
            && StackReferences(pushed) == StackReferences(stack) + References(left) + References(right)
            && StackFault(host, pushed) ==
               if FirstFault(host, left).Some? then FirstFault(host, left)
               else if FirstFault(host, right).Some? then FirstFault(host, right)
               else StackFault(host, stack)
  {
    assert stack + [right, left] == (stack + [right]) + [left];
    StackTop(stack + [right], left);
    StackTop(stack, right);
  }

  /** Resolving a reference keeps the others: their nodes have other identities. */
  lemma ResolveOne(
    host: Host, root: ConstExpr, stack: seq<ConstExpr>, resolved: map<nat, ConstValue>, e: ConstExpr)
    requires DistinctNodes(root) && e.kind.Reference? && LocalError(host, e).None?
    requires ResolvedOrPending(host, root, stack + [e], resolved)
    ensures ResolvedOrPending(host, root, stack, resolved[e.id := host.resolve(e.kind.target).value.1])
  {
    StackTop(stack, e);
    assert e in References(root);
  }

  /** Check every node, including those that lazy evaluation would skip. */
  method Inspect(host: Host, root: ConstExpr)
    returns (fault: Option<Fault>, resolved: map<nat, ConstValue>)
    requires DistinctNodes(root)
    ensures fault == FirstFault(host, root)
    ensures fault.None? ==> AllResolved(host, root, resolved)
  {
    hide FirstFault, LocalError, References, Size, DistinctNodes;
    var stack := [root];
    resolved := map[];
    OneTree(host, root);
    while stack != []
      invariant StackFault(host, stack) == FirstFault(host, root)
      invariant ResolvedOrPending(host, root, stack, resolved)
      decreases StackSize(stack)
    {
      var e, rest := stack[|stack| - 1], stack[..|stack| - 1];
      assert stack == rest + [e];
      var local := LocalError(host, e);
      if local.Some? {
        LocalFault(host, e);
        return Some(Fault(local.value, e.id)), resolved;
      }
      PushChildren(host, rest, e);
      if e.kind.Reference? {
        ResolveOne(host, root, rest, resolved, e);
        resolved := resolved[e.id := ResolvedValue(host, e)];
      }
      stack := Pushed(rest, e);
    }
    return None, resolved;
  }

  lemma OneTree(host: Host, root: ConstExpr)
    ensures StackReferences([root]) == References(root)
    ensures StackFault(host, [root]) == FirstFault(host, root)
  {
    assert [root][..0] == [];
    assert StackFault(host, []) == None && StackReferences([]) == {};
  }

  lemma LocalFault(host: Host, e: ConstExpr)
    requires LocalError(host, e).Some?
    ensures FirstFault(host, e) == Some(Fault(LocalError(host, e).value, e.id))
  {
  }

  function ResolvedValue(host: Host, e: ConstExpr): ConstValue
    requires e.kind.Reference? && LocalError(host, e).None?
  {
    host.resolve(e.kind.target).value.1
  }

  // ----- evaluation

  /** A suspended node: not started, waiting for its operands, or (for a logical
      operator) waiting for its right operand. */
  datatype Frame = Frame(node: ConstExpr, phase: nat)

  predicate IsLogicalNode(e: ConstExpr) {
    e.kind.Binary? && IsLogical(e.kind.op)
  }

  predicate IsUnaryNode(e: ConstExpr) {
    e.kind.Neg? || e.kind.Not?
  }

  predicate IsStrictNode(e: ConstExpr) {
    (e.kind.Binary? && !IsLogical(e.kind.op)) || e.kind.Compare?
  }

  /** The last `n` values of the stack are values of the node's last operands. */
  ghost predicate EndsWith(values: seq<ConstValue>, types: seq<Type>) {
    && |types| <= |values|
    && forall i | 0 <= i < |types| :: ValidConstant(types[i], values[|values| - |types| + i])
  }

  /** The operands that a frame takes off the value stack. */
  ghost function Operands(f: Frame): Option<seq<Type>> {
    var e := f.node;
    if f.phase == 0 then Some([])
    else if f.phase == 1 && IsUnaryNode(e) then Some([e.kind.operand.ty])
    else if f.phase == 1 && IsStrictNode(e) then Some([e.kind.left.ty, e.kind.right.ty])
    else if (f.phase == 1 || f.phase == 2) && IsLogicalNode(e) then Some([Bool])
    else None
  }

  ghost predicate FrameOk(host: Host, resolved: map<nat, ConstValue>, f: Frame) {
    Valid(host, f.node) && AllResolved(host, f.node, resolved) && Operands(f).Some?
  }

  /** The frames fit together: with values of these types on the stack, running
      them leaves exactly one value of type `goal`. */
  ghost predicate Ready(
    host: Host, resolved: map<nat, ConstValue>, frames: seq<Frame>, types: seq<Type>, goal: Type)
  {
    if frames == [] then types == [goal]
    else
      var f := frames[|frames| - 1];
      && FrameOk(host, resolved, f)
      && var n := |Operands(f).value|;
         && n <= |types| && types[|types| - n..] == Operands(f).value
         && Ready(host, resolved, frames[..|frames| - 1], types[..|types| - n] + [f.node.ty], goal)
  }

  /** The value of a frame from the operands at the end of the value stack. */
  ghost function FrameValue(host: Host, f: Frame, values: seq<ConstValue>): Result<ConstValue, Fault>
    requires Valid(host, f.node) && Operands(f).Some? && EndsWith(values, Operands(f).value)
  {
    var e, n := f.node, |values|;
    LastOperand(values, Operands(f).value);
    if f.phase == 0 then Eval(host, e)
    else if IsUnaryNode(e) then CombineUnary(e, values[n - 1])
    else if e.kind.Compare? then CombineCompare(e, values[n - 2], values[n - 1])
    else if !IsLogicalNode(e) then CombineBinary(host, e, values[n - 2], values[n - 1])
    else if f.phase == 1 && NeedsRight(e.kind.op, values[n - 1].b) then Eval(host, e.kind.right)
    else Success(values[n - 1])
  }

  lemma LastOperand(values: seq<ConstValue>, types: seq<Type>)
    requires EndsWith(values, types)
    ensures types != [] ==> ValidConstant(types[|types| - 1], values[|values| - 1])
  {
    if types != [] {
      assert ValidConstant(types[|types| - 1], values[|values| - |types| + (|types| - 1)]);
    }
  }

  /** What running all frames yields: the single value, or the first fault. */
  ghost function RunFrames(
    host: Host, resolved: map<nat, ConstValue>, frames: seq<Frame>, types: seq<Type>, goal: Type,
    values: seq<ConstValue>): Result<ConstValue, Fault>
    requires Ready(host, resolved, frames, types, goal)
    requires |values| == |types| && EndsWith(values, types)
  {
    if frames == [] then Success(values[0])
    else
      var f := frames[|frames| - 1];
      var n := |Operands(f).value|;
      OperandsAtEnd(values, types, n);
      var v := FrameValue(host, f, values);
      if v.Failure? then v
      else
        FrameValueValid(host, f, values);
        PushedValue(values, types, n, v.value, f.node.ty);
        RunFrames(host, resolved, frames[..|frames| - 1], types[..|types| - n] + [f.node.ty], goal,
                  values[..|values| - n] + [v.value])
  }

  lemma OperandsAtEnd(values: seq<ConstValue>, types: seq<Type>, n: nat)
    requires |values| == |types| && EndsWith(values, types) && n <= |types|
    ensures EndsWith(values, types[|types| - n..])
  {
  }

  lemma PushedValue(values: seq<ConstValue>, types: seq<Type>, n: nat, v: ConstValue, ty: Type)
    requires |values| == |types| && EndsWith(values, types) && n <= |types| && ValidConstant(ty, v)
    ensures EndsWith(values[..|values| - n] + [v], types[..|types| - n] + [ty])
  {
  }

  lemma FrameValueValid(host: Host, f: Frame, values: seq<ConstValue>)
    requires Valid(host, f.node) && Operands(f).Some? && EndsWith(values, Operands(f).value)
    ensures var v := FrameValue(host, f, values); v.Success? ==> ValidConstant(f.node.ty, v.value)
  {
    hide Eval, CombineUnary, CombineBinary, CombineCompare;
    LastOperand(values, Operands(f).value);
  }

  lemma FrameTop(rest: seq<Frame>, f: Frame)
    ensures (rest + [f])[..|rest|] == rest && (rest + [f])[|rest|] == f
  {
  }

  /** What is left to run, as the loop holds it. */
  ghost predicate Suspended(
    host: Host, resolved: map<nat, ConstValue>, frames: seq<Frame>, types: seq<Type>, goal: Type,
    values: seq<ConstValue>)
  {
    && Ready(host, resolved, frames, types, goal)
    && |values| == |types| && EndsWith(values, types)
  }

  lemma SuspendedStep(
    host: Host, resolved: map<nat, ConstValue>, rest: seq<Frame>, f: Frame, types: seq<Type>, goal: Type,
    values: seq<ConstValue>)
    requires Suspended(host, resolved, rest + [f], types, goal, values)
    ensures FrameOk(host, resolved, f) && EndsWith(values, Operands(f).value)
    ensures var n := |Operands(f).value|;
            var v := FrameValue(host, f, values);
            && n <= |types|
            && (v.Failure? ==> RunFrames(host, resolved, rest + [f], types, goal, values) == v)
            && (v.Success? ==>
                 var types', values' := types[..|types| - n] + [f.node.ty], values[..|values| - n] + [v.value];
                 && Suspended(host, resolved, rest, types', goal, values')
                 && RunFrames(host, resolved, rest + [f], types, goal, values)
                    == RunFrames(host, resolved, rest, types', goal, values'))
  {
    hide FrameValue, FrameOk, EndsWith;
    FrameTop(rest, f);
    ValidFrame(host, resolved, f);
    var n := |Operands(f).value|;
    OperandsAtEnd(values, types, n);
    var v := FrameValue(host, f, values);
    if v.Success? {
      FrameValueValid(host, f, values);
      PushedValue(values, types, n, v.value, f.node.ty);
    }
  }

  lemma ValidFrame(host: Host, resolved: map<nat, ConstValue>, f: Frame)
    requires FrameOk(host, resolved, f)
    ensures Valid(host, f.node) && Operands(f).Some?
  {
  }

  lemma ChildOk(host: Host, resolved: map<nat, ConstValue>, e: ConstExpr, x: ConstExpr)
    requires Valid(host, e) && AllResolved(host, e, resolved) && x in Children(e)
    ensures FrameOk(host, resolved, Frame(x, 0))
  {
    hide LocalError, IsResolved;
  }

  /** Push a frame whose operands are already on the value stack. */
  lemma ReadyPush(
    host: Host, resolved: map<nat, ConstValue>, rest: seq<Frame>, f: Frame, types: seq<Type>, goal: Type)
    requires FrameOk(host, resolved, f) && Operands(f).Some?
    requires |Operands(f).value| <= |types|
    requires types[|types| - |Operands(f).value|..] == Operands(f).value
    requires Ready(host, resolved, rest, types[..|types| - |Operands(f).value|] + [f.node.ty], goal)
    ensures Ready(host, resolved, rest + [f], types, goal)
  {
    hide FrameOk;
    FrameTop(rest, f);
  }

  /** Push a frame that is not started yet. */
  lemma ReadyStart(
    host: Host, resolved: map<nat, ConstValue>, rest: seq<Frame>, x: ConstExpr, types: seq<Type>, goal: Type)
    requires FrameOk(host, resolved, Frame(x, 0))
    requires Ready(host, resolved, rest, types + [x.ty], goal)
    ensures Ready(host, resolved, rest + [Frame(x, 0)], types, goal)
  {
    hide FrameOk, Ready;
    assert types[..|types|] == types && types[|types|..] == [];
    ReadyPush(host, resolved, rest, Frame(x, 0), types, goal);
  }

  /** Running a frame that is not started pushes its value. */
  lemma RunStart(
    host: Host, resolved: map<nat, ConstValue>, rest: seq<Frame>, x: ConstExpr, types: seq<Type>, goal: Type,
    values: seq<ConstValue>)
    requires Suspended(host, resolved, rest + [Frame(x, 0)], types, goal, values)
    ensures Valid(host, x) && AllResolved(host, x, resolved)
    ensures Ready(host, resolved, rest, types + [x.ty], goal)
    ensures var v := Eval(host, x);
            && (v.Failure? ==> RunFrames(host, resolved, rest + [Frame(x, 0)], types, goal, values) == v)
            && (v.Success? ==>
                 && Suspended(host, resolved, rest, types + [x.ty], goal, values + [v.value])
                 && RunFrames(host, resolved, rest + [Frame(x, 0)], types, goal, values)
                    == RunFrames(host, resolved, rest, types + [x.ty], goal, values + [v.value]))
  {
    hide Ready, RunFrames, EndsWith, Eval, AllResolved;
    SuspendedStep(host, resolved, rest, Frame(x, 0), types, goal, values);
    ReadyIs(host, resolved, rest, Frame(x, 0), types, goal);
    assert types[..|types| - 0] == types && values[..|values| - 0] == values;
  }

  /** Running a frame with one operand on the value stack replaces it. */
  lemma RunOne(
    host: Host, resolved: map<nat, ConstValue>, rest: seq<Frame>, f: Frame, types: seq<Type>, t: Type,
    goal: Type, values: seq<ConstValue>, w: ConstValue)
    requires Operands(f) == Some([t])
    requires Suspended(host, resolved, rest + [f], types + [t], goal, values + [w])
    ensures FrameOk(host, resolved, f) && EndsWith(values + [w], [t])
    ensures Ready(host, resolved, rest, types + [f.node.ty], goal)
    ensures var v := FrameValue(host, f, values + [w]);
            && (v.Failure? ==>
                 RunFrames(host, resolved, rest + [f], types + [t], goal, values + [w]) == v)
            && (v.Success? ==>
                 && Suspended(host, resolved, rest, types + [f.node.ty], goal, values + [v.value])
                 && RunFrames(host, resolved, rest + [f], types + [t], goal, values + [w])
                    == RunFrames(host, resolved, rest, types + [f.node.ty], goal, values + [v.value]))
  {
    hide Ready, RunFrames, EndsWith, FrameValue, FrameOk, Operands;
    SuspendedStep(host, resolved, rest, f, types + [t], goal, values + [w]);
    ReadyIs(host, resolved, rest, f, types + [t], goal);
    assert (types + [t])[..|types|] == types && (values + [w])[..|values|] == values;
  }

  /** Put a frame with one operand under its operand. */
  lemma ReadyOne(
    host: Host, resolved: map<nat, ConstValue>, rest: seq<Frame>, f: Frame, types: seq<Type>, t: Type,
    goal: Type)
    requires FrameOk(host, resolved, f) && Operands(f) == Some([t])
    requires Ready(host, resolved, rest, types + [f.node.ty], goal)
    ensures Ready(host, resolved, rest + [f], types + [t], goal)
  {
    hide FrameOk, Ready;
    assert (types + [t])[..|types|] == types && (types + [t])[|types|..] == [t];
    ReadyPush(host, resolved, rest, f, types + [t], goal);
  }

  /** Starting a unary node: first its operand, then the node again. */
  lemma ExpandUnary(
    host: Host, resolved: map<nat, ConstValue>, rest: seq<Frame>, e: ConstExpr, types: seq<Type>, goal: Type,
    values: seq<ConstValue>)
    requires IsUnaryNode(e) && Suspended(host, resolved, rest + [Frame(e, 0)], types, goal, values)
    ensures var frames := rest + [Frame(e, 1)] + [Frame(e.kind.operand, 0)];
            && Suspended(host, resolved, frames, types, goal, values)
            && RunFrames(host, resolved, frames, types, goal, values)
               == RunFrames(host, resolved, rest + [Frame(e, 0)], types, goal, values)
  {
    var x := e.kind.operand;
    hide Ready, RunFrames, EndsWith, AllResolved, CombineUnary;
    RunStart(host, resolved, rest, e, types, goal, values);
    ChildOk(host, resolved, e, x);
    ReadyOne(host, resolved, rest, Frame(e, 1), types, x.ty, goal);
    ReadyStart(host, resolved, rest + [Frame(e, 1)], x, types, goal);
    RunStart(host, resolved, rest + [Frame(e, 1)], x, types, goal, values);
    var v := Eval(host, x);
    if v.Success? {
      RunOne(host, resolved, rest, Frame(e, 1), types, x.ty, goal, values, v.value);
    }
  }

  lemma ReadyIs(
    host: Host, resolved: map<nat, ConstValue>, rest: seq<Frame>, f: Frame, types: seq<Type>, goal: Type)
    requires Ready(host, resolved, rest + [f], types, goal)
    ensures FrameOk(host, resolved, f) && Operands(f).Some?
    ensures var n := |Operands(f).value|;
            && n <= |types| && types[|types| - n..] == Operands(f).value
            && Ready(host, resolved, rest, types[..|types| - n] + [f.node.ty], goal)
  {
    FrameTop(rest, f);
  }

  lemma RunTwo(
    host: Host, resolved: map<nat, ConstValue>, rest: seq<Frame>, f: Frame, types: seq<Type>, t: Type, u: Type,
    goal: Type, values: seq<ConstValue>, l: ConstValue, r: ConstValue)
    requires Operands(f) == Some([t, u])
    requires Suspended(host, resolved, rest + [f], types + [t] + [u], goal, values + [l] + [r])
    ensures FrameOk(host, resolved, f) && EndsWith(values + [l] + [r], [t, u])
    ensures Ready(host, resolved, rest, types + [f.node.ty], goal)
    ensures var v := FrameValue(host, f, values + [l] + [r]);
            && (v.Failure? ==>
                 RunFrames(host, resolved, rest + [f], types + [t] + [u], goal, values + [l] + [r]) == v)
            && (v.Success? ==>
                 && Suspended(host, resolved, rest, types + [f.node.ty], goal, values + [v.value])
                 && RunFrames(host, resolved, rest + [f], types + [t] + [u], goal, values + [l] + [r])
                    == RunFrames(host, resolved, rest, types + [f.node.ty], goal, values + [v.value]))
  {
    hide Ready, RunFrames, EndsWith, FrameValue, FrameOk, Operands;
    SuspendedStep(host, resolved, rest, f, types + [t] + [u], goal, values + [l] + [r]);
    ReadyIs(host, resolved, rest, f, types + [t] + [u], goal);
    DropTwo(types, t, u);
    DropTwo(values, l, r);
  }

  lemma DropTwo<T>(s: seq<T>, a: T, b: T)
    ensures |s + [a] + [b]| == |s| + 2 && (s + [a] + [b])[..|s|] == s
  {
  }

  lemma ReadyTwo(
    host: Host, resolved: map<nat, ConstValue>, rest: seq<Frame>, f: Frame, types: seq<Type>, t: Type, u: Type,
    goal: Type)
    requires FrameOk(host, resolved, f) && Operands(f) == Some([t, u])
    requires Ready(host, resolved, rest, types + [f.node.ty], goal)
    ensures Ready(host, resolved, rest + [f], types + [t] + [u], goal)
  {
    hide FrameOk, Ready;
    var all := types + [t] + [u];
    assert all[..|types|] == types && all[|types|..] == [t, u];
    ReadyPush(host, resolved, rest, f, all, goal);
  }

  /** Starting a strict binary node: left, then right, then the node again. */
  lemma ExpandStrict(
    host: Host, resolved: map<nat, ConstValue>, rest: seq<Frame>, e: ConstExpr, types: seq<Type>, goal: Type,
    values: seq<ConstValue>)
    requires IsStrictNode(e) && Suspended(host, resolved, rest + [Frame(e, 0)], types, goal, values)
    ensures var frames := rest + [Frame(e, 1)] + [Frame(e.kind.right, 0)] + [Frame(e.kind.left, 0)];
            && Suspended(host, resolved, frames, types, goal, values)
            && RunFrames(host, resolved, frames, types, goal, values)
               == RunFrames(host, resolved, rest + [Frame(e, 0)], types, goal, values)
  {
    var left, right := e.kind.left, e.kind.right;
    hide Ready, RunFrames, EndsWith, AllResolved, CombineBinary, CombineCompare;
    RunStart(host, resolved, rest, e, types, goal, values);
    ChildOk(host, resolved, e, left);
    ChildOk(host, resolved, e, right);
    var one := rest + [Frame(e, 1)];
    var two := one + [Frame(right, 0)];
    ReadyTwo(host, resolved, rest, Frame(e, 1), types, left.ty, right.ty, goal);
    ReadyStart(host, resolved, one, right, types + [left.ty], goal);
    ReadyStart(host, resolved, two, left, types, goal);
    RunStart(host, resolved, two, left, types, goal, values);
    var l, r := Eval(host, left), Eval(host, right);
    if l.Success? {
      RunStart(host, resolved, one, right, types + [left.ty], goal, values + [l.value]);
      if r.Success? {
        RunTwo(host, resolved, rest, Frame(e, 1), types, left.ty, right.ty, goal, values, l.value, r.value);
        StrictValue(host, e, values, l.value, r.value);
      }
    }
  }

  lemma StrictValue(host: Host, e: ConstExpr, values: seq<ConstValue>, l: ConstValue, r: ConstValue)
    requires IsStrictNode(e) && Valid(host, e)
    requires EndsWith(values + [l] + [r], [e.kind.left.ty, e.kind.right.ty])
    requires Eval(host, e.kind.left) == Success(l) && Eval(host, e.kind.right) == Success(r)
    ensures FrameValue(host, Frame(e, 1), values + [l] + [r]) == Eval(host, e)
  {
    hide CombineBinary, CombineCompare;
  }

  /** The operands of a valid logical node are Booleans. */
  lemma LogicalTypes(host: Host, e: ConstExpr)
    requires IsLogicalNode(e) && Valid(host, e)
    ensures e.ty == e.kind.left.ty == e.kind.right.ty == Bool
    ensures Valid(host, e.kind.left) && Valid(host, e.kind.right)
    ensures var l := Eval(host, e.kind.left);
            && (l.Success? ==> l.value.Truth?)
            && Eval(host, e) ==
               if l.Failure? then l
               else if NeedsRight(e.kind.op, l.value.b) then Eval(host, e.kind.right) else l
  {
  }

  /** Starting a logical node: only its left operand. */
  lemma ExpandLogical(
    host: Host, resolved: map<nat, ConstValue>, rest: seq<Frame>, e: ConstExpr, types: seq<Type>, goal: Type,
    values: seq<ConstValue>)
    requires IsLogicalNode(e) && Suspended(host, resolved, rest + [Frame(e, 0)], types, goal, values)
    ensures var frames := rest + [Frame(e, 1)] + [Frame(e.kind.left, 0)];
            && Suspended(host, resolved, frames, types, goal, values)
            && RunFrames(host, resolved, frames, types, goal, values)
               == RunFrames(host, resolved, rest + [Frame(e, 0)], types, goal, values)
  {
    var left := e.kind.left;
    hide Ready, RunFrames, EndsWith, AllResolved, Valid, Eval;
    RunStart(host, resolved, rest, e, types, goal, values);
    LogicalTypes(host, e);
    ChildOk(host, resolved, e, left);
    ReadyOne(host, resolved, rest, Frame(e, 1), types, Bool, goal);
    ReadyStart(host, resolved, rest + [Frame(e, 1)], left, types, goal);
    RunStart(host, resolved, rest + [Frame(e, 1)], left, types, goal, values);
    var l := Eval(host, left);
    if l.Success? {
      RunOne(host, resolved, rest, Frame(e, 1), types, Bool, goal, values, l.value);
    }
  }

  /** An undecided logical node goes on with its right operand. */
  lemma ResumeLogical(
    host: Host, resolved: map<nat, ConstValue>, rest: seq<Frame>, e: ConstExpr, types: seq<Type>, goal: Type,
    values: seq<ConstValue>, w: ConstValue)
    requires IsLogicalNode(e) && w.Truth? && NeedsRight(e.kind.op, w.b)
    requires Suspended(host, resolved, rest + [Frame(e, 1)], types + [Bool], goal, values + [w])
    ensures var frames := rest + [Frame(e, 2)] + [Frame(e.kind.right, 0)];
            && Suspended(host, resolved, frames, types, goal, values)
            && RunFrames(host, resolved, frames, types, goal, values)
               == RunFrames(host, resolved, rest + [Frame(e, 1)], types + [Bool], goal, values + [w])
  {
    var right := e.kind.right;
    hide Ready, RunFrames, AllResolved, Valid, Eval;
    RunOne(host, resolved, rest, Frame(e, 1), types, Bool, goal, values, w);
    LogicalTypes(host, e);
    ChildOk(host, resolved, e, right);
    ReadyOne(host, resolved, rest, Frame(e, 2), types, Bool, goal);
    ReadyStart(host, resolved, rest + [Frame(e, 2)], right, types, goal);
    EndsWithout(values, w, types, Bool);
    RunStart(host, resolved, rest + [Frame(e, 2)], right, types, goal, values);
    var r := Eval(host, right);
    if r.Success? {
      RunOne(host, resolved, rest, Frame(e, 2), types, Bool, goal, values, r.value);
    }
  }

  lemma EndsWithout(values: seq<ConstValue>, w: ConstValue, types: seq<Type>, t: Type)
    requires |values| == |types| && EndsWith(values + [w], types + [t])
    ensures EndsWith(values, types)
  {
    forall i | 0 <= i < |types|
      ensures ValidConstant(types[i], values[i])
    {
      assert (types + [t])[i] == types[i] && (values + [w])[i] == values[i];
    }
  }

  ghost function Weight(f: Frame): nat {
    if f.phase == 0 then Size(f.node)
    else if f.phase == 1 && IsLogicalNode(f.node) then 2 + Size(f.node.kind.right)
    else 1
  }

  ghost function Work(frames: seq<Frame>): nat {
    if frames == [] then 0 else Work(frames[..|frames| - 1]) + Weight(frames[|frames| - 1])
  }

  lemma WorkTop(rest: seq<Frame>, f: Frame)
    ensures Work(rest + [f]) == Work(rest) + Weight(f)
  {
    FrameTop(rest, f);
  }

  /** One step on a node that is not started: suspend it and start its first operands. */
  method Start(
    host: Host, ghost resolved: map<nat, ConstValue>, rest: seq<Frame>, e: ConstExpr,
    ghost types: seq<Type>, ghost goal: Type, ghost values: seq<ConstValue>)
    returns (frames: seq<Frame>)
    requires !e.kind.Literal? && !e.kind.Reference?
    requires Suspended(host, resolved, rest + [Frame(e, 0)], types, goal, values)
    ensures Suspended(host, resolved, frames, types, goal, values)
    ensures RunFrames(host, resolved, frames, types, goal, values)
            == RunFrames(host, resolved, rest + [Frame(e, 0)], types, goal, values)
    ensures Work(frames) < Work(rest + [Frame(e, 0)])
  {
    hide Ready, RunFrames, EndsWith, Work;
    WorkTop(rest, Frame(e, 0));
    frames := rest + [Frame(e, 1)];
    WorkTop(rest, Frame(e, 1));
    if e.kind.Neg? || e.kind.Not? {
      ExpandUnary(host, resolved, rest, e, types, goal, values);
      WorkTop(frames, Frame(e.kind.operand, 0));
      frames := frames + [Frame(e.kind.operand, 0)];
    } else if e.kind.Binary? && IsLogical(e.kind.op) {
      ExpandLogical(host, resolved, rest, e, types, goal, values);
      WorkTop(frames, Frame(e.kind.left, 0));
      frames := frames + [Frame(e.kind.left, 0)];
    } else {
      ExpandStrict(host, resolved, rest, e, types, goal, values);
      WorkTop(frames, Frame(e.kind.right, 0));
      frames := frames + [Frame(e.kind.right, 0)];
      WorkTop(frames, Frame(e.kind.left, 0));
      frames := frames + [Frame(e.kind.left, 0)];
    }
  }

  /** The value of a node whose operands are all evaluated, taken off the value
      stack; the stack is never too short. */
  method Complete(
    host: Host, resolved: map<nat, ConstValue>, f: Frame, values: seq<ConstValue>)
    returns (v: Result<ConstValue, Fault>, remaining: seq<ConstValue>)
    requires FrameOk(host, resolved, f) && EndsWith(values, Operands(f).value)
    requires f.phase == 0 ==> f.node.kind.Literal? || f.node.kind.Reference?
    requires f.phase == 1 && IsLogicalNode(f.node) ==>
      values != [] && values[|values| - 1].Truth? && !NeedsRight(f.node.kind.op, values[|values| - 1].b)
    ensures v == FrameValue(host, f, values)
    ensures remaining == values[..|values| - |Operands(f).value|]
  {
    var e, n := f.node, |values|;
    LastOperand(values, Operands(f).value);
    match e.kind
    case Literal(value) =>
      v, remaining := Checked(e, value), values;
    case Reference(_) =>
      assert e in References(e);
      v, remaining := Checked(e, resolved[e.id]), values;
    case Neg(_) =>
      v, remaining := CombineUnary(e, values[n - 1]), values[..n - 1];
    case Not(_) =>
      v, remaining := CombineUnary(e, values[n - 1]), values[..n - 1];
    case Binary(op, _, _) =>
      if IsLogical(op) {
        LogicalTypes(host, e);
        v, remaining := Checked(e, values[n - 1]), values[..n - 1];
      } else {
        v, remaining := CombineBinary(host, e, values[n - 2], values[n - 1]), values[..n - 2];
      }
    case Compare(_, _, _) =>
      v, remaining := CombineCompare(e, values[n - 2], values[n - 1]), values[..n - 2];
  }

  lemma RunRoot(host: Host, resolved: map<nat, ConstValue>, root: ConstExpr)
    requires Valid(host, root) && AllResolved(host, root, resolved)
    ensures Suspended(host, resolved, [Frame(root, 0)], [], root.ty, [])
    ensures RunFrames(host, resolved, [Frame(root, 0)], [], root.ty, []) == Eval(host, root)
  {
    hide AllResolved, Valid, Eval;
    assert [] + [Frame(root, 0)] == [Frame(root, 0)];
    assert Ready(host, resolved, [], [root.ty], root.ty);
    assert [] + [root.ty] == [root.ty];
    ReadyStart(host, resolved, [], root, [], root.ty);
    RunStart(host, resolved, [], root, [], root.ty, []);
  }

  /** `evaluate_with_error_site`: the explicit-stack evaluator returns what the
      recursive definition returns, value or fault with its node. */
  method EvaluateWithErrorSite(host: Host, root: ConstExpr) returns (r: Result<ConstValue, Fault>)
    requires DistinctNodes(root)
    ensures r == Evaluate(host, root)
  {
    hide Ready, RunFrames, EndsWith, AllResolved, Work, FirstFault, Eval;
    var fault, resolved := Inspect(host, root);
    if fault.Some? {
      return Failure(fault.value);
    }
    RunRoot(host, resolved, root);
    var pending: seq<Frame>, values: seq<ConstValue> := [Frame(root, 0)], [];
    ghost var types: seq<Type> := [];
    while pending != []
      invariant Suspended(host, resolved, pending, types, root.ty, values)
      invariant RunFrames(host, resolved, pending, types, root.ty, values) == Eval(host, root)
      decreases Work(pending)
    {
      var f, rest := pending[|pending| - 1], pending[..|pending| - 1];
      assert pending == rest + [f];
      var e := f.node;
      SuspendedStep(host, resolved, rest, f, types, root.ty, values);
      ReadyIs(host, resolved, rest, f, types, root.ty);
      WorkTop(rest, f);
      if f.phase == 0 && !e.kind.Literal? && !e.kind.Reference? {
        pending := Start(host, resolved, rest, e, types, root.ty, values);
      } else {
        var undecided := IsUndecided(host, resolved, f, values);
        if undecided {
          ghost var n := |types| - 1;
          assert types == types[..n] + [Bool] && values == values[..n] + [values[n]];
          ResumeLogical(host, resolved, rest, e, types[..n], root.ty, values[..n], values[n]);
          WorkTop(rest, Frame(e, 2));
          WorkTop(rest + [Frame(e, 2)], Frame(e.kind.right, 0));
          pending := rest + [Frame(e, 2)] + [Frame(e.kind.right, 0)];
          values := values[..|values| - 1];
          types := types[..n];
        } else {
          ghost var n := |Operands(f).value|;
          var v, remaining := Complete(host, resolved, f, values);
          if v.Failure? {
            return v;
          }
          pending := rest;
          types := types[..|types| - n] + [e.ty];
          values := remaining + [v.value];
        }
      }
    }
    RunNothing(host, resolved, types, root.ty, values);
    return Success(values[0]);
  }

  /** A logical node whose left operand does not decide it. */
  method IsUndecided(host: Host, ghost resolved: map<nat, ConstValue>, f: Frame, values: seq<ConstValue>)
    returns (b: bool)
    requires FrameOk(host, resolved, f) && EndsWith(values, Operands(f).value)
    ensures f.phase == 1 && IsLogicalNode(f.node) ==> values != [] && values[|values| - 1].Truth?
    ensures b <==>
      f.phase == 1 && IsLogicalNode(f.node) && NeedsRight(f.node.kind.op, values[|values| - 1].b)
  {
    LastOperand(values, Operands(f).value);
    b := false;
    if f.phase == 1 && IsLogicalNode(f.node) {
      b := NeedsRight(f.node.kind.op, values[|values| - 1].b);
    }
  }

  lemma RunNothing(
    host: Host, resolved: map<nat, ConstValue>, types: seq<Type>, goal: Type, values: seq<ConstValue>)
    requires Suspended(host, resolved, [], types, goal, values)
    ensures |values| == 1 && RunFrames(host, resolved, [], types, goal, values) == Success(values[0])
  {
  }
}
