/** The evaluation of `equ` definitions, from the item list to the value map. */
module ConstResolve {
  import opened AsmSections
  import opened Wrappers
  import opened ConstGraph

  datatype Evaluated = NumberValue(n: int) | SymbolValue(name: Name, addend: int)

  /** The value of an expression under the constants known so far; a sum that
      leaves the 64-bit range is refused. */
  function EvalExpr(expr: Expr, values: map<Name, int>): Option<Evaluated> {
    match expr
    case Number(n) => Some(NumberValue(n))
    case Symbol(name, addend) =>
      if name in values then
        if InRange(values[name] + addend) then Some(NumberValue(values[name] + addend)) else None
      else Some(SymbolValue(name, addend))
  }

  ghost function IndexOf(defs: seq<Definition>, name: Name): (p: nat)
    requires IsDefined(defs, name)
    ensures p < |defs| && defs[p].name == name
  {
    var p :| 0 <= p < |defs| && defs[p].name == name; p
  }

  ghost function Parents(defs: seq<Definition>): (parent: seq<nat>)
    requires forall p | 0 <= p < |defs| && defs[p].expr.Symbol? :: IsDefined(defs, defs[p].expr.name)
    ensures ParentsOf(defs, parent)
  {
    seq(|defs|, p requires 0 <= p < |defs| =>
      if defs[p].expr.Symbol? then
        assert IsDefined(defs, defs[p].expr.name); IndexOf(defs, defs[p].expr.name)
      else 0)
  }

  /** The error of the first definition that is not well formed. */
  ghost predicate FirstIllFormed(items: seq<Item>, defs: seq<Definition>, p: nat, error: ConstError) {
    && p < |defs|
    && (forall q | 0 <= q < p :: WellFormed(items, defs, defs[q]))
    && var def := defs[p];
       if IsReserved(items, def.name) then
         exists j | 0 <= j < |items| ::
           && FirstReservation(items, def.name, j)
           && error == Reserved(def.name, if def.site > j then def.site else j,
                                if def.site > j then j else def.site)
       else
         && def.expr.Symbol? && !IsDefined(defs, def.expr.name)
         && error == UndefinedDependency(def.expr.name, def.site)
  }

  ghost function NamesOf(defs: seq<Definition>, positions: set<nat>): set<Name> {
    set p | p in positions && p < |defs| :: defs[p].name
  }

  /** What evaluating a well-formed set of definitions yields. */
  ghost predicate Evaluation(
    defs: seq<Definition>, parent: seq<nat>, r: Result<map<Name, int>, ConstError>)
    requires ParentsOf(defs, parent)
  {
    match r
    case Success(values) =>
      && values.Keys == (set p | 0 <= p < |defs| :: defs[p].name)
      && forall p | 0 <= p < |defs| ::
           && Grounded(defs, parent, p) && ValueFits(defs, parent, p)
           && defs[p].name in values && values[defs[p].name] == Value(defs, parent, p)
    case Failure(OutOfRange(dependency, site)) =>
      exists p | 0 <= p < |defs| ::
        && Grounded(defs, parent, p) && !ValueFits(defs, parent, p)
        && defs[p].expr.name == dependency && defs[p].site == site
    case Failure(Cycle(name, site)) =>
      && (forall p | 0 <= p < |defs| && Grounded(defs, parent, p) :: ValueFits(defs, parent, p))
      && exists p | 0 <= p < |defs| ::
           && !Grounded(defs, parent, p)
           && (forall q | 0 <= q < p :: Grounded(defs, parent, q))
           && defs[p].name == name && defs[p].site == site
    case _ => false
  }

  /** The complete outcome for a list of items. */
  ghost predicate Resolution(items: seq<Item>, r: Result<map<Name, int>, ConstError>) {
    var defs := Definitions(items, |items|);
    if !NamesDiffer(defs) then
      exists i: nat, j: nat | FirstDuplicate(items, i, j) :: r == Failure(Duplicate(items[i].name, i, j))
    else if !AllWellFormed(items, defs) then
      r.Failure? && exists p: nat :: FirstIllFormed(items, defs, p, r.error)
    else
      (assert forall p | 0 <= p < |defs| :: WellFormed(items, defs, defs[p]);
       Evaluation(defs, Parents(defs), r))
  }

  /** Resolution succeeds exactly when the names are distinct and unreserved,
      every dependency is defined, nothing depends on itself and every sum
      stays in the 64-bit range. */
  lemma SucceedsIff(items: seq<Item>, r: Result<map<Name, int>, ConstError>)
    requires Resolution(items, r)
    ensures var defs := Definitions(items, |items|);
            r.Success? <==>
              && NamesDiffer(defs) && AllWellFormed(items, defs)
              && (assert forall p | 0 <= p < |defs| :: WellFormed(items, defs, defs[p]);
                  var parent := Parents(defs);
                  && (forall p | 0 <= p < |defs| :: !OnCycle(defs, parent, p))
                  && forall p | 0 <= p < |defs| && Grounded(defs, parent, p) :: ValueFits(defs, parent, p))
  {
    var defs := Definitions(items, |items|);
    if NamesDiffer(defs) && AllWellFormed(items, defs) {
      assert forall p | 0 <= p < |defs| :: WellFormed(items, defs, defs[p]);
      GroundedIffAcyclic(defs, Parents(defs));
    }
  }

  /** One list per definition of the definitions that refer to it. */
  ghost predicate DependentsOf(defs: seq<Definition>, parent: seq<nat>, dependents: seq<seq<nat>>)
    requires ParentsOf(defs, parent)
  {
    && |dependents| == |defs|
    && forall p | 0 <= p < |defs| ::
         && Distinct(dependents[p])
         && forall q: nat :: q in dependents[p] <==> q < |defs| && defs[q].expr.Symbol? && parent[q] == p
  }

  ghost predicate Distinct(s: seq<nat>) {
    forall i, j | 0 <= i < j < |s| :: s[i] != s[j]
  }

  ghost predicate Closed(defs: seq<Definition>, parent: seq<nat>, done: set<nat>, ready: seq<nat>)
    requires ParentsOf(defs, parent)
  {
    && (forall p: nat | p < |defs| && defs[p].expr.Number? :: p in done || p in ready)
    && (forall p: nat | p < |defs| && defs[p].expr.Symbol? ::
         (p in done ==> parent[p] in done)
         && (p in ready ==> parent[p] in done)
         && (parent[p] in done ==> p in done || p in ready))
  }

  ghost predicate Known(defs: seq<Definition>, parent: seq<nat>, done: set<nat>, values: map<Name, int>)
    requires ParentsOf(defs, parent)
  {
    && values.Keys == NamesOf(defs, done)
    && forall p: nat | p in done ::
         && p < |defs| && Grounded(defs, parent, p) && ValueFits(defs, parent, p)
         && defs[p].name in values && values[defs[p].name] == Value(defs, parent, p)
  }

  lemma {:induction false} GroundedDone(
    defs: seq<Definition>, parent: seq<nat>, done: set<nat>, p: nat, k: nat)
    requires ParentsOf(defs, parent) && Closed(defs, parent, done, []) && p < |defs|
    requires GroundedIn(defs, parent, p, k)
    ensures p in done
    decreases k
  {
    if defs[p].expr.Symbol? {
      GroundedDone(defs, parent, done, parent[p], k - 1);
    }
  }

  /** When the queue is empty, exactly the definitions with a value are done. */
  lemma AllGroundedDone(defs: seq<Definition>, parent: seq<nat>, done: set<nat>)
    requires ParentsOf(defs, parent) && Closed(defs, parent, done, [])
    ensures forall p | 0 <= p < |defs| && Grounded(defs, parent, p) :: p in done
  {
    forall p | 0 <= p < |defs| && Grounded(defs, parent, p)
      ensures p in done
    {
      var k: nat :| GroundedIn(defs, parent, p, k);
      GroundedDone(defs, parent, done, p, k);
    }
  }

  lemma QueueStep(
    defs: seq<Definition>, parent: seq<nat>, dependents: seq<seq<nat>>, done: set<nat>, ready: seq<nat>)
    requires ParentsOf(defs, parent) && DependentsOf(defs, parent, dependents)
    requires Closed(defs, parent, done, ready) && ready != [] && Distinct(ready)
    requires ready[0] < |defs|
    requires forall p: nat | p in ready :: p < |defs| && p !in done
    ensures |dependents| == |defs|
    ensures defs[ready[0]].expr.Symbol? ==> parent[ready[0]] in done
    ensures var p, ready' := ready[0], ready[1..] + dependents[ready[0]];
            && Closed(defs, parent, done + {p}, ready') && Distinct(ready')
            && forall q: nat | q in ready' :: q < |defs| && q !in done + {p}
  {
    var p, rest := ready[0], ready[1..];
    HeadAndRest(ready);
    forall q: nat | q in dependents[p]
      ensures q < |defs| && q != p && q !in done && q !in rest
    {
    }
    DistinctConcat(rest, dependents[p]);
    assert forall q :: q in rest + dependents[p] <==> q in rest || q in dependents[p];
  }

  lemma HeadAndRest(s: seq<nat>)
    requires s != [] && Distinct(s)
    ensures Distinct(s[1..])
    ensures forall q :: q in s <==> q == s[0] || q in s[1..]
    ensures s[0] !in s[1..]
  {
    assert s == [s[0]] + s[1..];
  }

  lemma DistinctConcat(a: seq<nat>, b: seq<nat>)
    requires Distinct(a) && Distinct(b) && forall q | q in b :: q !in a
    ensures Distinct(a + b)
  {
    var c := a + b;
    forall i, j | 0 <= i < j < |c|
      ensures c[i] != c[j]
    {
      if j < |a| {
        assert c[i] == a[i] && c[j] == a[j];
      } else if i < |a| {
        assert c[i] == a[i] && c[j] == b[j - |a|] && b[j - |a|] in b;
      } else {
        assert c[i] == b[i - |a|] && c[j] == b[j - |a|];
      }
    }
  }

  lemma ValueKnown(
    defs: seq<Definition>, parent: seq<nat>, done: set<nat>, values: map<Name, int>, p: nat)
    requires ParentsOf(defs, parent) && Known(defs, parent, done, values) && p < |defs|
    requires defs[p].expr.Symbol? ==> parent[p] in done
    ensures Grounded(defs, parent, p)
    ensures var e := EvalExpr(defs[p].expr, values);
            if ValueFits(defs, parent, p) then e == Some(NumberValue(Value(defs, parent, p)))
            else e == None
  {
    if defs[p].expr.Number? {
      NumberGrounded(defs, parent, p);
    } else {
      ValueStep(defs, parent, p);
      assert defs[parent[p]].name in values;
    }
  }

  lemma KnownStep(
    defs: seq<Definition>, parent: seq<nat>, done: set<nat>, values: map<Name, int>, p: nat)
    requires ParentsOf(defs, parent) && NamesDiffer(defs) && Known(defs, parent, done, values)
    requires p < |defs| && p !in done && Grounded(defs, parent, p) && ValueFits(defs, parent, p)
    ensures Known(defs, parent, done + {p}, values[defs[p].name := Value(defs, parent, p)])
  {
    assert NamesOf(defs, done + {p}) == NamesOf(defs, done) + {defs[p].name};
    forall q: nat | q in done
      ensures defs[q].name != defs[p].name
    {
    }
  }

  lemma QueueStart(defs: seq<Definition>, parent: seq<nat>, numbers: seq<nat>)
    requires ParentsOf(defs, parent)
    requires forall p: nat :: p in numbers <==> p < |defs| && defs[p].expr.Number?
    ensures Closed(defs, parent, {}, numbers) && Known(defs, parent, {}, map[])
  {
    assert NamesOf(defs, {}) == {};
  }

  lemma OutOfRangeEvaluation(defs: seq<Definition>, parent: seq<nat>, p: nat)
    requires ParentsOf(defs, parent) && p < |defs| && defs[p].expr.Symbol?
    requires Grounded(defs, parent, p) && !ValueFits(defs, parent, p)
    ensures Evaluation(defs, parent, Failure(OutOfRange(defs[p].expr.name, defs[p].site)))
  {
  }

  ghost function Indices(n: nat): (s: set<nat>)
    ensures forall p: nat :: p in s <==> p < n
  {
    if n == 0 then {} else Indices(n - 1) + {n - 1}
  }

  /** The worklist: each definition is popped at most once, after its dependency. */
  method Propagate(
    defs: seq<Definition>, ghost parent: seq<nat>, dependents: seq<seq<nat>>, numbers: seq<nat>)
    returns (r: Result<map<Name, int>, ConstError>)
    requires NamesDiffer(defs) && ParentsOf(defs, parent) && DependentsOf(defs, parent, dependents)
    requires Distinct(numbers)
    requires forall p: nat :: p in numbers <==> p < |defs| && defs[p].expr.Number?
    ensures Evaluation(defs, parent, r)
  {
    hide Known, Closed, DependentsOf, Evaluation, EvalExpr;
    QueueStart(defs, parent, numbers);
    var values: map<Name, int> := map[];
    var ready := numbers;
    ghost var done: set<nat> := {};
    while ready != []
      invariant Known(defs, parent, done, values)
      invariant Closed(defs, parent, done, ready) && Distinct(ready)
      invariant forall p: nat | p in ready :: p < |defs| && p !in done
      decreases Indices(|defs|) - done
    {
      var p := ready[0];
      assert p in ready;
      QueueStep(defs, parent, dependents, done, ready);
      ValueKnown(defs, parent, done, values, p);
      var value := EvalExpr(defs[p].expr, values);
      if value.None? {
        OutOfRangeEvaluation(defs, parent, p);
        return Failure(OutOfRange(defs[p].expr.name, defs[p].site));
      }
      KnownStep(defs, parent, done, values, p);
      values := values[defs[p].name := value.value.n];
      done := done + {p};
      ready := ready[1..] + dependents[p];
    }
    AllGroundedDone(defs, parent, done);
    r := Report(defs, parent, done, values);
  }

  /** The values, or the first definition that never became ready. */
  method Report(
    defs: seq<Definition>, ghost parent: seq<nat>, ghost done: set<nat>, values: map<Name, int>)
    returns (r: Result<map<Name, int>, ConstError>)
    requires NamesDiffer(defs) && ParentsOf(defs, parent) && Known(defs, parent, done, values)
    requires forall p | 0 <= p < |defs| && Grounded(defs, parent, p) :: p in done
    ensures Evaluation(defs, parent, r)
  {
    for p := 0 to |defs|
      invariant forall q: nat | q < p :: q in done
    {
      if defs[p].name !in values {
        return Failure(Cycle(defs[p].name, defs[p].site));
      }
      assert p in done by {
        var q: nat :| q in done && q < |defs| && defs[q].name == defs[p].name;
      }
    }
    assert values.Keys == (set p | 0 <= p < |defs| :: defs[p].name);
    return Success(values);
  }

  /** What the scan over the items has collected. */
  datatype Tables = Tables(defs: seq<Definition>, positions: map<Name, nat>, reserved: map<Name, nat>)

  ghost predicate ReservedBefore(items: seq<Item>, k: nat, name: Name)
    requires k <= |items|
  {
    exists j | 0 <= j < k :: IsReservation(items[j], name)
  }

  ghost predicate Collected(items: seq<Item>, k: nat, t: Tables)
    requires k <= |items|
  {
    && t.defs == Definitions(items, k) && NamesDiffer(t.defs)
    && (forall name :: name in t.positions <==> IsDefined(t.defs, name))
    && (forall p | 0 <= p < |t.defs| :: t.defs[p].name in t.positions && t.positions[t.defs[p].name] == p)
    && (forall name :: name in t.reserved <==> ReservedBefore(items, k, name))
    && (forall name | name in t.reserved :: FirstReservation(items, name, t.reserved[name]))
  }

  lemma CollectReservation(items: seq<Item>, k: nat, t: Tables, name: Name)
    requires k < |items| && Collected(items, k, t) && IsReservation(items[k], name)
    ensures var reserved := if name in t.reserved then t.reserved else t.reserved[name := k];
            Collected(items, k + 1, t.(reserved := reserved))
  {
    var reserved := if name in t.reserved then t.reserved else t.reserved[name := k];
    forall other
      ensures other in reserved <==> ReservedBefore(items, k + 1, other)
    {
      if ReservedBefore(items, k, other) || other == name {
        var j: nat :| j <= k && IsReservation(items[j], other);
      }
    }
  }

  lemma CollectConstant(items: seq<Item>, k: nat, t: Tables)
    requires k < |items| && Collected(items, k, t) && items[k].Const? && items[k].name !in t.positions
    ensures Collected(items, k + 1, t.(
      defs := t.defs + [Definition(items[k].name, items[k].expr, k)],
      positions := t.positions[items[k].name := |t.defs|]))
  {
    hide FirstReservation, ReservedBefore, IsDefined;
    NothingReserved(items, k);
    DefinedAppend(t.defs, Definition(items[k].name, items[k].expr, k));
    forall p | 0 <= p < |t.defs|
      ensures t.defs[p].name != items[k].name
    {
      assert t.defs[p].name in t.positions;
    }
  }

  lemma NothingReserved(items: seq<Item>, k: nat)
    requires k < |items| && !items[k].Label? && !items[k].Extern?
    ensures forall name :: ReservedBefore(items, k + 1, name) <==> ReservedBefore(items, k, name)
  {
    forall name
      ensures ReservedBefore(items, k + 1, name) <==> ReservedBefore(items, k, name)
    {
      assert !IsReservation(items[k], name);
    }
  }

  lemma DefinedAppend(defs: seq<Definition>, def: Definition)
    ensures forall name :: IsDefined(defs + [def], name) <==> IsDefined(defs, name) || name == def.name
  {
    forall name
      ensures IsDefined(defs + [def], name) <==> IsDefined(defs, name) || name == def.name
    {
      if IsDefined(defs, name) {
        var p :| 0 <= p < |defs| && defs[p].name == name;
        assert (defs + [def])[p].name == name;
      }
      assert (defs + [def])[|defs|].name == def.name;
    }
  }

  lemma CollectOther(items: seq<Item>, k: nat, t: Tables)
    requires k < |items| && Collected(items, k, t) && items[k].Other?
    ensures Collected(items, k + 1, t)
  {
    NothingReserved(items, k);
  }

  lemma CollectNothing(items: seq<Item>)
    ensures Collected(items, 0, Tables([], map[], map[]))
  {
  }

  lemma DuplicateFound(items: seq<Item>, k: nat, t: Tables)
    requires k < |items| && Collected(items, k, t) && items[k].Const? && items[k].name in t.positions
    ensures var p := t.positions[items[k].name];
            p < |t.defs| && FirstDuplicate(items, k, t.defs[p].site)
  {
    hide FirstReservation, ReservedBefore;
    assert IsDefined(t.defs, items[k].name);
  }

  /** The first pass over the items: definitions, positions and reserved names. */
  method Collect(items: seq<Item>) returns (r: Result<Tables, ConstError>)
    ensures r.Success? ==> Collected(items, |items|, r.value)
    ensures r.Failure? ==>
      exists i: nat, j: nat | FirstDuplicate(items, i, j) :: r.error == Duplicate(items[i].name, i, j)
  {
    hide Collected, FirstDuplicate, Definitions;
    CollectNothing(items);
    var defs: seq<Definition>, positions: map<Name, nat>, reserved: map<Name, nat> := [], map[], map[];
    for i := 0 to |items|
      invariant Collected(items, i, Tables(defs, positions, reserved))
    {
      ghost var t := Tables(defs, positions, reserved);
      match items[i]
      case Const(name, expr) =>
        if name in positions {
          DuplicateFound(items, i, t);
          var p := positions[name];
          return Failure(Duplicate(name, i, defs[p].site));
        }
        CollectConstant(items, i, t);
        positions := positions[name := |defs|];
        defs := defs + [Definition(name, expr, i)];
      case Other =>
        CollectOther(items, i, t);
      case _ =>
        CollectReservation(items, i, t, items[i].name);
        if items[i].name !in reserved {
          reserved := reserved[items[i].name := i];
        }
    }
    return Success(Tables(defs, positions, reserved));
  }

  /** The edges among the first `k` definitions. */
  ghost predicate LinkedUpTo(t: Tables, k: nat, dependents: seq<seq<nat>>, numbers: seq<nat>) {
    && k <= |t.defs| == |dependents|
    && Distinct(numbers)
    && (forall q: nat :: q in numbers <==> q < k && t.defs[q].expr.Number?)
    && forall p | 0 <= p < |t.defs| ::
         && Distinct(dependents[p])
         && forall q: nat :: q in dependents[p] <==>
              q < k && t.defs[q].expr.Symbol? && t.defs[q].expr.name in t.positions
              && t.positions[t.defs[q].expr.name] == p
  }

  lemma DistinctAppend(s: seq<nat>, x: nat)
    requires Distinct(s) && x !in s
    ensures Distinct(s + [x])
  {
    DistinctConcat(s, [x]);
  }

  lemma LinkStart(t: Tables)
    ensures LinkedUpTo(t, 0, seq(|t.defs|, _ => []), [])
  {
  }

  lemma LinkNumber(t: Tables, k: nat, dependents: seq<seq<nat>>, numbers: seq<nat>)
    requires LinkedUpTo(t, k, dependents, numbers) && k < |t.defs| && t.defs[k].expr.Number?
    ensures LinkedUpTo(t, k + 1, dependents, numbers + [k])
  {
    DistinctAppend(numbers, k);
  }

  lemma LinkSymbol(t: Tables, k: nat, dependents: seq<seq<nat>>, numbers: seq<nat>, d: nat)
    requires LinkedUpTo(t, k, dependents, numbers) && k < |t.defs| && t.defs[k].expr.Symbol?
    requires t.defs[k].expr.name in t.positions && t.positions[t.defs[k].expr.name] == d < |t.defs|
    ensures LinkedUpTo(t, k + 1, dependents[d := dependents[d] + [k]], numbers)
  {
    DistinctAppend(dependents[d], k);
  }

  /** Link every definition to its dependency, or report the first bad one. */
  method Link(ghost items: seq<Item>, t: Tables)
    returns (error: Option<ConstError>, dependents: seq<seq<nat>>, numbers: seq<nat>)
    requires Collected(items, |items|, t)
    ensures error.Some? ==> exists p: nat :: FirstIllFormed(items, t.defs, p, error.value)
    ensures error.None? ==> AllWellFormed(items, t.defs) && LinkedUpTo(t, |t.defs|, dependents, numbers)
  {
    hide FirstReservation, Collected, LinkedUpTo, IsReserved, IsDefined;
    LinkStart(t);
    error := None;
    dependents, numbers := seq(|t.defs|, _ => []), [];
    for p := 0 to |t.defs|
      invariant LinkedUpTo(t, p, dependents, numbers) && |dependents| == |t.defs|
      invariant forall q | 0 <= q < p :: WellFormed(items, t.defs, t.defs[q])
    {
      var def := t.defs[p];
      NamesKnown(items, t, def.name);
      if def.name in t.reserved {
        var j := t.reserved[def.name];
        error := Some(Reserved(def.name, if def.site > j then def.site else j,
                               if def.site > j then j else def.site));
        assert FirstIllFormed(items, t.defs, p, error.value) by { FirstReservationIndex(items, t, def.name); }
        return;
      }
      match def.expr
      case Number(_) =>
        LinkNumber(t, p, dependents, numbers);
        numbers := numbers + [p];
      case Symbol(dependency, _) =>
        NamesKnown(items, t, dependency);
        if dependency !in t.positions {
          error := Some(UndefinedDependency(dependency, def.site));
          assert FirstIllFormed(items, t.defs, p, error.value);
          return;
        }
        var d := t.positions[dependency];
        LinkSymbol(t, p, dependents, numbers, d);
        dependents := dependents[d := dependents[d] + [p]];
    }
  }

  lemma FirstReservationIndex(items: seq<Item>, t: Tables, name: Name)
    requires Collected(items, |items|, t) && name in t.reserved
    ensures t.reserved[name] < |items| && FirstReservation(items, name, t.reserved[name])
  {
  }

  lemma NamesKnown(items: seq<Item>, t: Tables, name: Name)
    requires Collected(items, |items|, t)
    ensures name in t.reserved <==> IsReserved(items, name)
    ensures name in t.positions <==> IsDefined(t.defs, name)
    ensures name in t.positions ==> t.positions[name] < |t.defs|
  {
    hide FirstReservation;
    if IsDefined(t.defs, name) {
      var p :| 0 <= p < |t.defs| && t.defs[p].name == name;
      assert t.positions[t.defs[p].name] == p;
    }
  }

  lemma PositionsAreParents(items: seq<Item>, t: Tables, dependents: seq<seq<nat>>, numbers: seq<nat>)
    requires Collected(items, |items|, t) && AllWellFormed(items, t.defs)
    requires LinkedUpTo(t, |t.defs|, dependents, numbers)
    requires forall p | 0 <= p < |t.defs| && t.defs[p].expr.Symbol? :: IsDefined(t.defs, t.defs[p].expr.name)
    ensures DependentsOf(t.defs, Parents(t.defs), dependents)
  {
    var parent := Parents(t.defs);
    forall q: nat | q < |t.defs| && t.defs[q].expr.Symbol?
      ensures t.defs[q].expr.name in t.positions
      ensures t.positions[t.defs[q].expr.name] == parent[q]
    {
      assert t.defs[parent[q]].name == t.defs[q].expr.name;
    }
  }

  lemma {:induction false} DefinitionOf(items: seq<Item>, k: nat, i: nat) returns (p: nat)
    requires i < k <= |items| && items[i].Const?
    ensures p < |Definitions(items, k)| && Definitions(items, k)[p].site == i
  {
    if i == k - 1 {
      p := |Definitions(items, k)| - 1;
    } else {
      p := DefinitionOf(items, k - 1, i);
    }
  }

  lemma DuplicateNames(items: seq<Item>, i: nat, j: nat)
    requires FirstDuplicate(items, i, j)
    ensures !NamesDiffer(Definitions(items, |items|))
  {
    var p := DefinitionOf(items, |items|, i);
    var q := DefinitionOf(items, |items|, j);
  }

  /** Resolve every constant of a program before any use is encoded. */
  method Resolve(items: seq<Item>) returns (r: Result<map<Name, int>, ConstError>)
    ensures Resolution(items, r)
  {
    var collected := Collect(items);
    if collected.Failure? {
      ghost var i: nat, j: nat :| FirstDuplicate(items, i, j) && collected.error == Duplicate(items[i].name, i, j);
      DuplicateNames(items, i, j);
      return Failure(collected.error);
    }
    var t := collected.value;
    var error, dependents, numbers := Link(items, t);
    if error.Some? {
      ghost var p: nat :| FirstIllFormed(items, t.defs, p, error.value);
      assert !WellFormed(items, t.defs, t.defs[p]);
      return Failure(error.value);
    }
    assert forall p | 0 <= p < |t.defs| :: WellFormed(items, t.defs, t.defs[p]);
    PositionsAreParents(items, t, dependents, numbers);
    r := Propagate(t.defs, Parents(t.defs), dependents, numbers);
  }

  /** A plain number is its own value, and every value belongs to a definition. */
  lemma NumberKept(items: seq<Item>, values: map<Name, int>, i: nat)
    requires Resolution(items, Success(values))
    requires i < |items| && items[i].Const? && items[i].expr.Number?
    ensures items[i].name in values && values[items[i].name] == items[i].expr.n
  {
    hide FirstDuplicate, FirstIllFormed, OnCycle;
    var defs := Definitions(items, |items|);
    assert forall p | 0 <= p < |defs| :: WellFormed(items, defs, defs[p]);
    var p := DefinitionOf(items, |items|, i);
    NumberGrounded(defs, Parents(defs), p);
  }

  lemma SumsFit(items: seq<Item>, values: map<Name, int>, name: Name)
    requires Resolution(items, Success(values)) && name in values && !InRange(values[name])
    ensures exists i | 0 <= i < |items| && items[i].Const? && items[i].expr.Number? :: !InRange(items[i].expr.n)
  {
    hide FirstDuplicate, FirstIllFormed, OnCycle;
    var defs := Definitions(items, |items|);
    assert forall p | 0 <= p < |defs| :: WellFormed(items, defs, defs[p]);
    var p :| 0 <= p < |defs| && defs[p].name == name;
    if defs[p].expr.Number? {
      NumberGrounded(defs, Parents(defs), p);
      assert items[defs[p].site].expr == defs[p].expr;
    }
  }

  /** All values lie in the 64-bit range exactly when the plain numbers do:
      only sums are checked. */
  lemma ValuesInRangeIff(items: seq<Item>, values: map<Name, int>)
    requires Resolution(items, Success(values))
    ensures (forall name | name in values :: InRange(values[name]))
            <==> (forall i | 0 <= i < |items| && items[i].Const? && items[i].expr.Number? ::
                   InRange(items[i].expr.n))
  {
    hide Resolution;
    forall i | 0 <= i < |items| && items[i].Const? && items[i].expr.Number?
      ensures items[i].name in values && values[items[i].name] == items[i].expr.n
    {
      NumberKept(items, values, i);
    }
    forall name | name in values && !InRange(values[name])
      ensures exists i | 0 <= i < |items| && items[i].Const? && items[i].expr.Number? :: !InRange(items[i].expr.n)
    {
      SumsFit(items, values, name);
    }
  }

  /** The parser bounds plain numbers; then resolution succeeds exactly when the names
      are distinct and unreserved, every dependency is defined, nothing depends on
      itself and every value is in the 64-bit range. */
  lemma ParsedSucceedsIff(items: seq<Item>, r: Result<map<Name, int>, ConstError>)
    requires Resolution(items, r)
    requires forall i | 0 <= i < |items| && items[i].Const? && items[i].expr.Number? :: InRange(items[i].expr.n)
    ensures var defs := Definitions(items, |items|);
            r.Success? <==>
              && NamesDiffer(defs) && AllWellFormed(items, defs)
              && (assert forall p | 0 <= p < |defs| :: WellFormed(items, defs, defs[p]);
                  var parent := Parents(defs);
                  && (forall p | 0 <= p < |defs| :: !OnCycle(defs, parent, p))
                  && forall p | 0 <= p < |defs| && Grounded(defs, parent, p) :: InRange(Value(defs, parent, p)))
  {
    hide Resolution, Value, OnCycle, Grounded;
    SucceedsIff(items, r);
    var defs := Definitions(items, |items|);
    if NamesDiffer(defs) && AllWellFormed(items, defs) {
      assert forall p | 0 <= p < |defs| :: WellFormed(items, defs, defs[p]);
      var parent := Parents(defs);
      forall p | 0 <= p < |defs| && Grounded(defs, parent, p)
        ensures ValueFits(defs, parent, p) <==> InRange(Value(defs, parent, p))
      {
        if defs[p].expr.Number? {
          NumberGrounded(defs, parent, p);
          assert items[defs[p].site].expr == defs[p].expr;
        }
      }
    }
  }

  /** A plain number outside the range is accepted as a constant. */
  lemma LargeNumberAccepted(r: Result<map<Name, int>, ConstError>)
    requires Resolution([Const("a", Number(MAX_VALUE + 1))], r)
    ensures r.Success? && "a" in r.value && r.value["a"] == MAX_VALUE + 1 && !InRange(r.value["a"])
  {
    var items := [Const("a", Number(MAX_VALUE + 1))];
    hide Resolution, Parents, Grounded, Value;
    var defs := Definitions(items, 1);
    assert defs == [Definition("a", Number(MAX_VALUE + 1), 0)] by { assert Definitions(items, 0) == []; }
    assert WellFormed(items, defs, defs[0]);
    SucceedsIff(items, r);
    NumberKept(items, r.value, 0);
  }
}
