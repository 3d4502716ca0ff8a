/**
  `equ` definitions. Each one is a number or another constant plus an addend,
  so the dependency graph has at most one parent per definition. A worklist
  evaluates it before encoding starts.
 */
module ConstGraph {
  import opened AsmSections
  import Bits
  import opened Wrappers

  datatype Expr = Number(n: int) | Symbol(name: Name, addend: int)

  datatype Item = Label(name: Name) | Extern(name: Name) | Const(name: Name, expr: Expr) | Other

  /** A constant, with the index of the item that declares it. */
  datatype Definition = Definition(name: Name, expr: Expr, site: nat)

  datatype ConstError =
    | Duplicate(name: Name, site: nat, previous: nat)
    | Reserved(name: Name, later: nat, earlier: nat)
    | UndefinedDependency(dependency: Name, site: nat)
    | OutOfRange(dependency: Name, site: nat)
    | Cycle(name: Name, site: nat)

  const MIN_VALUE := -0x8000_0000_0000_0000
  const MAX_VALUE := 0xffff_ffff_ffff_ffff

  predicate InRange(n: int) {
    MIN_VALUE <= n <= MAX_VALUE
  }

  /** The values of signed and of unsigned 64-bit numbers together. */
  lemma RangeIs(n: int)
    ensures InRange(n) <==> -(Bits.Pow2(63) as int) <= n < Bits.Pow2(64)
  {
    Bits.Pow2At64();
    assert Bits.Pow2(64) == 2 * Bits.Pow2(63);
  }

  /** The constants among the first `k` items, in order. */
  function Definitions(items: seq<Item>, k: nat): (defs: seq<Definition>)
    requires k <= |items|
    ensures forall p | 0 <= p < |defs| ::
      defs[p].site < k && items[defs[p].site] == Const(defs[p].name, defs[p].expr)
  {
    if k == 0 then []
    else
      var rest := Definitions(items, k - 1);
      match items[k - 1]
      case Const(name, expr) => rest + [Definition(name, expr, k - 1)]
      case _ => rest
  }

  predicate IsReservation(item: Item, name: Name) {
    item == Label(name) || item == Extern(name)
  }

  ghost predicate NamesDiffer(defs: seq<Definition>) {
    forall p, q | 0 <= p < q < |defs| :: defs[p].name != defs[q].name
  }

  /** `i` is the first item that declares a constant again, after item `j`. */
  ghost predicate FirstDuplicate(items: seq<Item>, i: nat, j: nat) {
    && j < i < |items| && items[i].Const? && items[j].Const? && items[i].name == items[j].name
    && NamesDiffer(Definitions(items, i))
  }

  /** `j` is the first label or extern item with this name. */
  ghost predicate FirstReservation(items: seq<Item>, name: Name, j: nat) {
    && j < |items| && IsReservation(items[j], name)
    && forall i | 0 <= i < j :: !IsReservation(items[i], name)
  }

  ghost predicate IsReserved(items: seq<Item>, name: Name) {
    exists j | 0 <= j < |items| :: IsReservation(items[j], name)
  }

  ghost predicate IsDefined(defs: seq<Definition>, name: Name) {
    exists p | 0 <= p < |defs| :: defs[p].name == name
  }

  /** The definition neither clashes with a label nor depends on an unknown name. */
  ghost predicate WellFormed(items: seq<Item>, defs: seq<Definition>, def: Definition) {
    && !IsReserved(items, def.name)
    && (def.expr.Symbol? ==> IsDefined(defs, def.expr.name))
  }

  ghost predicate AllWellFormed(items: seq<Item>, defs: seq<Definition>) {
    forall p | 0 <= p < |defs| :: WellFormed(items, defs, defs[p])
  }

  /** A dependency graph without dangling edges: `parent[p]` is the definition
      that definition `p` refers to. */
  ghost predicate ParentsOf(defs: seq<Definition>, parent: seq<nat>) {
    && |parent| == |defs|
    && forall p | 0 <= p < |defs| && defs[p].expr.Symbol? ::
         parent[p] < |defs| && defs[parent[p]].name == defs[p].expr.name
  }

  /** The chain of definition `p` ends in a number after at most `k` steps. */
  ghost predicate GroundedIn(defs: seq<Definition>, parent: seq<nat>, p: nat, k: nat)
    requires ParentsOf(defs, parent) && p < |defs|
    decreases k
  {
    defs[p].expr.Number? || (k > 0 && GroundedIn(defs, parent, parent[p], k - 1))
  }

  ghost predicate Grounded(defs: seq<Definition>, parent: seq<nat>, p: nat)
    requires ParentsOf(defs, parent) && p < |defs|
  {
    exists k: nat :: GroundedIn(defs, parent, p, k)
  }

  /** The sum of the addends along the chain of `p`, and the number at its end. */
  ghost function ChainSum(defs: seq<Definition>, parent: seq<nat>, p: nat, k: nat): int
    requires ParentsOf(defs, parent) && p < |defs| && GroundedIn(defs, parent, p, k)
    decreases k
  {
    if defs[p].expr.Number? then defs[p].expr.n
    else ChainSum(defs, parent, parent[p], k - 1) + defs[p].expr.addend
  }

  ghost function Value(defs: seq<Definition>, parent: seq<nat>, p: nat): int
    requires ParentsOf(defs, parent) && p < |defs| && Grounded(defs, parent, p)
  {
    var k: nat :| GroundedIn(defs, parent, p, k);
    ChainSum(defs, parent, p, k)
  }

  lemma {:induction false} ChainSumUnique(defs: seq<Definition>, parent: seq<nat>, p: nat, j: nat, k: nat)
    requires ParentsOf(defs, parent) && p < |defs|
    requires GroundedIn(defs, parent, p, j) && GroundedIn(defs, parent, p, k)
    ensures ChainSum(defs, parent, p, j) == ChainSum(defs, parent, p, k)
    decreases j
  {
    if defs[p].expr.Symbol? {
      ChainSumUnique(defs, parent, parent[p], j - 1, k - 1);
    }
  }

  lemma ValueIs(defs: seq<Definition>, parent: seq<nat>, p: nat, k: nat)
    requires ParentsOf(defs, parent) && p < |defs| && GroundedIn(defs, parent, p, k)
    ensures Grounded(defs, parent, p)
    ensures Value(defs, parent, p) == ChainSum(defs, parent, p, k)
  {
    forall j: nat | GroundedIn(defs, parent, p, j)
      ensures ChainSum(defs, parent, p, j) == ChainSum(defs, parent, p, k)
    {
      ChainSumUnique(defs, parent, p, j, k);
    }
  }

  /** A definition is its parent plus its addend. */
  lemma ValueStep(defs: seq<Definition>, parent: seq<nat>, p: nat)
    requires ParentsOf(defs, parent) && p < |defs| && defs[p].expr.Symbol?
    ensures Grounded(defs, parent, p) <==> Grounded(defs, parent, parent[p])
    ensures Grounded(defs, parent, p) ==>
      Value(defs, parent, p) == Value(defs, parent, parent[p]) + defs[p].expr.addend
  {
    if Grounded(defs, parent, parent[p]) {
      var k: nat :| GroundedIn(defs, parent, parent[p], k);
      assert GroundedIn(defs, parent, p, k + 1);
    }
    if Grounded(defs, parent, p) {
      var k: nat :| GroundedIn(defs, parent, p, k);
      ValueIs(defs, parent, p, k);
      ValueIs(defs, parent, parent[p], k - 1);
    }
  }

  lemma NumberGrounded(defs: seq<Definition>, parent: seq<nat>, p: nat)
    requires ParentsOf(defs, parent) && p < |defs| && defs[p].expr.Number?
    ensures Grounded(defs, parent, p) && Value(defs, parent, p) == defs[p].expr.n
  {
    assert GroundedIn(defs, parent, p, 0);
  }

  /** Only results of an addition are range checked; a plain number is taken as it is. */
  ghost predicate ValueFits(defs: seq<Definition>, parent: seq<nat>, p: nat)
    requires ParentsOf(defs, parent) && p < |defs| && Grounded(defs, parent, p)
  {
    defs[p].expr.Symbol? ==> InRange(Value(defs, parent, p))
  }

  /** Follow the chain of `p` for `k` steps, staying at a number once reached. */
  ghost function Ancestor(defs: seq<Definition>, parent: seq<nat>, p: nat, k: nat): (a: nat)
    requires ParentsOf(defs, parent) && p < |defs|
    ensures a < |defs|
    decreases k
  {
    if k == 0 || defs[p].expr.Number? then p else Ancestor(defs, parent, parent[p], k - 1)
  }

  /** `p` depends on itself. */
  ghost predicate OnCycle(defs: seq<Definition>, parent: seq<nat>, p: nat)
    requires ParentsOf(defs, parent) && p < |defs|
  {
    defs[p].expr.Symbol? && exists k: nat :: k > 0 && Ancestor(defs, parent, p, k) == p
  }

  lemma {:induction false} AncestorGrounded(defs: seq<Definition>, parent: seq<nat>, p: nat, k: nat)
    requires ParentsOf(defs, parent) && p < |defs|
    ensures Grounded(defs, parent, p) <==> Grounded(defs, parent, Ancestor(defs, parent, p, k))
    decreases k
  {
    if k > 0 && defs[p].expr.Symbol? {
      AncestorGrounded(defs, parent, parent[p], k - 1);
      ValueStep(defs, parent, p);
    }
  }

  lemma {:induction false} AncestorSum(defs: seq<Definition>, parent: seq<nat>, p: nat, j: nat, k: nat)
    requires ParentsOf(defs, parent) && p < |defs|
    ensures Ancestor(defs, parent, p, j + k) == Ancestor(defs, parent, Ancestor(defs, parent, p, j), k)
    decreases j
  {
    if j > 0 && defs[p].expr.Symbol? {
      AncestorSum(defs, parent, parent[p], j - 1, k);
    }
  }

  /** A definition on a cycle has no value. */
  lemma {:induction false} CycleNotGrounded(defs: seq<Definition>, parent: seq<nat>, p: nat, k: nat)
    requires ParentsOf(defs, parent) && p < |defs| && OnCycle(defs, parent, p)
    ensures !GroundedIn(defs, parent, p, k)
    decreases k
  {
    if k > 0 && GroundedIn(defs, parent, p, k) {
      var c: nat :| c > 0 && Ancestor(defs, parent, p, c) == p;
      var q := parent[p];
      // The parent of `p` is on the same cycle.
      AncestorSum(defs, parent, p, c, 1);
      AncestorSum(defs, parent, p, 1, c);
      assert Ancestor(defs, parent, q, 0) == q;
      assert Ancestor(defs, parent, p, c) == Ancestor(defs, parent, q, c - 1);
      assert OnCycle(defs, parent, q);
      CycleNotGrounded(defs, parent, q, k - 1);
    }
  }

  lemma {:induction false} PigeonHole(f: nat -> nat, n: nat, count: nat) returns (i: nat, j: nat)
    requires count > n && forall x: nat | x < count :: f(x) < n
    ensures i < j < count && f(i) == f(j)
    decreases n
  {
    var last := f(count - 1);
    if x: nat :| x < count - 1 && f(x) == last {
      return x, count - 1;
    }
    // Nobody else maps to `last`: rename n - 1 to last and shrink both sides.
    var g := (x: nat) => if f(x) == n - 1 then last else f(x);
    i, j := PigeonHole(g, n - 1, count - 1);
  }

  /** Every definition has a value exactly when no definition depends on itself. */
  lemma GroundedIffAcyclic(defs: seq<Definition>, parent: seq<nat>)
    requires ParentsOf(defs, parent)
    ensures (forall p | 0 <= p < |defs| :: Grounded(defs, parent, p))
            <==> (forall p | 0 <= p < |defs| :: !OnCycle(defs, parent, p))
  {
    forall p | 0 <= p < |defs| && OnCycle(defs, parent, p)
      ensures !Grounded(defs, parent, p)
    {
      forall k: nat {
        CycleNotGrounded(defs, parent, p, k);
      }
    }
    forall p | 0 <= p < |defs| && !Grounded(defs, parent, p)
      ensures exists q | 0 <= q < |defs| :: OnCycle(defs, parent, q)
    {
      var f := (k: nat) => Ancestor(defs, parent, p, k);
      var i, j := PigeonHole(f, |defs|, |defs| + 1);
      var q := Ancestor(defs, parent, p, i);
      AncestorSum(defs, parent, p, i, j - i);
      AncestorGrounded(defs, parent, p, i);
      if defs[q].expr.Number? {
        NumberGrounded(defs, parent, q);
      }
      assert Ancestor(defs, parent, q, j - i) == q;
      assert OnCycle(defs, parent, q);
    }
  }
}
