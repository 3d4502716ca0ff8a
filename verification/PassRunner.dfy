/**
  Transactional passes over a module, with analysis caches that are valid for one
  state at one epoch. The module, the verifier and the passes are parameters.
 */
module PassRunner {
  import opened Bits
  import opened Wrappers

  datatype AnalysisKind = Cfg | Values | Effects

  function IndexOf(kind: AnalysisKind): (i: nat)
    ensures i < 3
  {
    match kind case Cfg => 0 case Values => 1 case Effects => 2
  }

  datatype Invalidates = Invalidates(cfg: bool, values: bool, effects: bool)

  const ALL := Invalidates(true, true, true)
  const NONE := Invalidates(false, false, false)

  datatype PassChange = PassChange(changed: bool, invalidates: Invalidates)

  datatype Stage = Before | Transform | After | Contract

  datatype PassError = PassError(stage: Stage, cause: string)

  /** A pass rewrites the module and reports, or fails; either way it may leave any module. */
  datatype Pass<!M> = Pass(run: M -> (M, Result<PassChange, string>))

  type Epochs = e: seq<nat> | |e| == 3 witness [0, 0, 0]

  function Flags(which: Invalidates): (f: seq<bool>)
    ensures |f| == 3
  {
    [which.cfg, which.values, which.effects]
  }

  /** The epochs after the first `n` kinds have been looked at, unless one is exhausted. */
  function Bumped(epochs: Epochs, which: Invalidates, n: nat): (r: Option<Epochs>)
    requires n <= 3
  {
    if n == 0 then Some(epochs)
    else
      var rest := Bumped(epochs, which, n - 1);
      if rest.None? || !Flags(which)[n - 1] then rest
      else if rest.value[n - 1] + 1 >= WORD_64 then None
      else Some(rest.value[n - 1 := rest.value[n - 1] + 1])
  }

  /** The module and the epochs of its analyses. */
  datatype World<M> = World(module_: M, epochs: Epochs)

  function Report<M(==)>(
    world: World<M>, after: M, report: Result<PassChange, string>, verify: M -> Option<string>)
    : (World<M>, Result<PassChange, PassError>)
  {
    if report.Failure? then (world, Failure(PassError(Transform, report.error)))
    else if verify(after).Some? then (world, Failure(PassError(After, verify(after).value)))
    else
      var changed := after != world.module_;
      if report.value.changed != changed || report.value.invalidates != (if changed then ALL else NONE) then
        (world, Failure(PassError(Contract, "report")))
      else
        var epochs := Bumped(world.epochs, report.value.invalidates, 3);
        if epochs.None? then (world, Failure(PassError(Contract, "epoch")))
        else (World(after, epochs.value), Success(report.value))
  }

  /** One call of the runner. */
  function RunPass<M(==)>(world: World<M>, pass: Pass<M>, verify: M -> Option<string>)
    : (World<M>, Result<PassChange, PassError>)
  {
    if verify(world.module_).Some? then (world, Failure(PassError(Before, verify(world.module_).value)))
    else
      var (after, report) := pass.run(world.module_);
      Report(world, after, report, verify)
  }

  class Identity {
    constructor () {
    }
  }

  class AnalysisState {
    const identity: Identity
    var epochs: Epochs

    constructor ()
      ensures fresh(identity) && epochs == [0, 0, 0]
    {
      identity := new Identity();
      epochs := [0, 0, 0];
    }

    function Epoch(kind: AnalysisKind): nat
      reads this
    {
      epochs[IndexOf(kind)]
    }

    /** All or nothing: an exhausted epoch leaves every epoch as it was. */
    method Invalidate(which: Invalidates) returns (ok: bool)
      modifies this
      ensures ok == Bumped(old(epochs), which, 3).Some?
      ensures epochs == if ok then Bumped(old(epochs), which, 3).value else old(epochs)
      ensures ok <==> forall kind: AnalysisKind | Names(which, kind) :: old(Epoch(kind)) + 1 < WORD_64
      ensures forall kind: AnalysisKind :: Epoch(kind) == old(Epoch(kind)) + if ok && Names(which, kind) then 1 else 0
    {
      RaisesNamed(epochs, which);
      var next := epochs;
      var flags := Flags(which);
      for i := 0 to 3
        invariant epochs == old(epochs) && Bumped(epochs, which, i) == Some(next)
      {
        if flags[i] {
          if next[i] + 1 >= WORD_64 {
            Exhausted(epochs, which, i + 1);
            return false;
          }
          next := next[i := next[i] + 1];
        }
      }
      epochs := next;
      return true;
    }
  }

  predicate Names(which: Invalidates, kind: AnalysisKind) {
    match kind case Cfg => which.cfg case Values => which.values case Effects => which.effects
  }

  /** The named epochs rise by one, together, unless one of them is exhausted. */
  lemma RaisesNamed(epochs: Epochs, which: Invalidates)
    ensures var r := Bumped(epochs, which, 3);
      && (r.Some? <==> forall kind: AnalysisKind | Names(which, kind) :: epochs[IndexOf(kind)] + 1 < WORD_64)
      && (r.Some? ==> forall kind: AnalysisKind ::
           r.value[IndexOf(kind)] == epochs[IndexOf(kind)] + if Names(which, kind) then 1 else 0)
  {
    var zero, one, two := Bumped(epochs, which, 0), Bumped(epochs, which, 1), Bumped(epochs, which, 2);
    assert Names(which, Cfg) == Flags(which)[0] && Names(which, Values) == Flags(which)[1];
    assert Names(which, Effects) == Flags(which)[2];
    assert IndexOf(Cfg) == 0 && IndexOf(Values) == 1 && IndexOf(Effects) == 2;
  }

  lemma Exhausted(epochs: Epochs, which: Invalidates, n: nat)
    requires n <= 3 && Bumped(epochs, which, n).None?
    ensures Bumped(epochs, which, 3).None?
  {
    if n == 1 {
      assert Bumped(epochs, which, 2).None?;
    }
  }

  datatype AnalysisCache<T> = AnalysisCache(identity: Identity, kind: AnalysisKind, epoch: nat, value: T)

  function NewCache<T>(kind: AnalysisKind, state: AnalysisState, value: T): AnalysisCache<T>
    reads state
  {
    AnalysisCache(state.identity, kind, state.Epoch(kind), value)
  }

  function Get<T>(cache: AnalysisCache<T>, state: AnalysisState): Option<T>
    reads state
  {
    if cache.identity == state.identity && cache.epoch == state.Epoch(cache.kind) then Some(cache.value) else None
  }

  /** A new cache hits, with its value and for its kind, as long as the epoch stands. */
  lemma NewCacheHits<T>(kind: AnalysisKind, state: AnalysisState, value: T)
    ensures var cache := NewCache(kind, state, value);
      cache.kind == kind && cache.epoch == state.Epoch(kind) && Get(cache, state) == Some(value)
  {
  }

  class ModuleCell<M(==)> {
    var module_: M

    constructor (m: M)
      ensures module_ == m
    {
      module_ := m;
    }
  }

  /** The runner: the pass works on the module itself, and a failure restores it. */
  method Run<M(==)>(cell: ModuleCell<M>, pass: Pass<M>, analyses: AnalysisState, verify: M -> Option<string>)
    returns (r: Result<PassChange, PassError>)
    modifies cell, analyses
    ensures (World(cell.module_, analyses.epochs), r) == RunPass(old(World(cell.module_, analyses.epochs)), pass, verify)
  {
    var refused := verify(cell.module_);
    if refused.Some? {
      return Failure(PassError(Before, refused.value));
    }
    var before := cell.module_;
    var (after, report) := pass.run(cell.module_);
    cell.module_ := after;
    if report.Failure? {
      cell.module_ := before;
      return Failure(PassError(Transform, report.error));
    }
    refused := verify(cell.module_);
    if refused.Some? {
      cell.module_ := before;
      return Failure(PassError(After, refused.value));
    }
    var changed := cell.module_ != before;
    if report.value.changed != changed
       || (changed && report.value.invalidates != ALL) || (!changed && report.value.invalidates != NONE)
    {
      cell.module_ := before;
      return Failure(PassError(Contract, "report"));
    }
    var ok := analyses.Invalidate(report.value.invalidates);
    if !ok {
      cell.module_ := before;
      return Failure(PassError(Contract, "epoch"));
    }
    return Success(report.value);
  }

  /** No cache that exists when a state is created ever hits on that state. */
  method NewState<T>(caches: seq<AnalysisCache<T>>) returns (state: AnalysisState)
    ensures fresh(state) && fresh(state.identity)
    ensures forall k | 0 <= k < |caches| :: caches[k].identity != state.identity && Get(caches[k], state).None?
  {
    state := new AnalysisState();
  }

  /** A cache never hits on a state other than the one it was created for. */
  lemma OtherStateMisses<T>(cache: AnalysisCache<T>, own: AnalysisState, other: AnalysisState)
    requires cache.identity == own.identity && own.identity != other.identity
    ensures Get(cache, other).None?
  {
  }

  /** What a call demands: a verified module before and after, a pass that succeeds and
      reports truthfully, and epochs that can rise if the module changes. */
  ghost predicate Succeeds<M>(world: World<M>, pass: Pass<M>, verify: M -> Option<string>) {
    var (after, report) := pass.run(world.module_);
    && verify(world.module_).None? && verify(after).None?
    && (after == world.module_ ==> report == Success(PassChange(false, Invalidates(false, false, false))))
    && (after != world.module_ ==>
         && report == Success(PassChange(true, Invalidates(true, true, true)))
         && forall i | 0 <= i < 3 :: world.epochs[i] + 1 < WORD_64)
  }

  /** The first demand that is not met names the stage of a failure. */
  ghost function FailedStage<M>(world: World<M>, pass: Pass<M>, verify: M -> Option<string>): (Stage, string) {
    var (after, report) := pass.run(world.module_);
    if verify(world.module_).Some? then (Before, verify(world.module_).value)
    else if report.Failure? then (Transform, report.error)
    else if verify(after).Some? then (After, verify(after).value)
    else
      var honest := if after == world.module_ then PassChange(false, Invalidates(false, false, false))
        else PassChange(true, Invalidates(true, true, true));
      (Contract, if report.value != honest then "report" else "epoch")
  }

  /** A call succeeds exactly when its demands are met; then the module is the one the
      pass left, and every epoch rises by one if it changed, and none does otherwise. A
      failed call changes nothing and names the stage that failed. */
  lemma PassOutcome<M>(world: World<M>, pass: Pass<M>, verify: M -> Option<string>)
    ensures var (after, r) := RunPass(world, pass, verify);
      && (r.Success? <==> Succeeds(world, pass, verify))
      && (r.Failure? ==>
           && after == world
           && (r.error.stage, r.error.cause) == FailedStage(world, pass, verify))
      && (r.Success? ==>
           && verify(world.module_).None? && verify(after.module_).None?
           && pass.run(world.module_) == (after.module_, Success(r.value))
           && r.value.changed == (after.module_ != world.module_)
           && forall i | 0 <= i < 3 :: after.epochs[i] == world.epochs[i] + if r.value.changed then 1 else 0)
  {
    hide Bumped;
    RaisesAllOrNone(world.epochs);
  }

  lemma RaisesAllOrNone(epochs: Epochs)
    ensures Bumped(epochs, NONE, 3) == Some(epochs)
    ensures var r := Bumped(epochs, ALL, 3);
      && (r.Some? <==> forall i | 0 <= i < 3 :: epochs[i] + 1 < WORD_64)
      && (r.Some? ==> forall i | 0 <= i < 3 :: r.value[i] == epochs[i] + 1)
  {
    hide Bumped;
    RaisesNamed(epochs, NONE);
    RaisesNamed(epochs, ALL);
    assert IndexOf(Cfg) == 0 && IndexOf(Values) == 1 && IndexOf(Effects) == 2;
    assert Names(ALL, Cfg) && Names(ALL, Values) && Names(ALL, Effects);
    assert Bumped(epochs, NONE, 3).value == epochs;
  }

  /** The world after the first `n` passes. */
  ghost function RunAll<M>(world: World<M>, passes: seq<Pass<M>>, verify: M -> Option<string>, n: nat): World<M>
    requires n <= |passes|
  {
    if n == 0 then world else RunPass(RunAll(world, passes, verify, n - 1), passes[n - 1], verify).0
  }

  lemma {:induction false} EpochsTrackModule<M>(
    world: World<M>, passes: seq<Pass<M>>, verify: M -> Option<string>, i: nat, j: nat)
    requires i <= j <= |passes|
    ensures var a, b := RunAll(world, passes, verify, i), RunAll(world, passes, verify, j);
      && (forall k | 0 <= k < 3 :: a.epochs[k] <= b.epochs[k])
      && (a == b || forall k | 0 <= k < 3 :: a.epochs[k] < b.epochs[k])
  {
    hide RunPass;
    if i < j {
      EpochsTrackModule(world, passes, verify, i, j - 1);
      var before := RunAll(world, passes, verify, j - 1);
      PassOutcome(before, passes[j - 1], verify);
      var (after, r) := RunPass(before, passes[j - 1], verify);
      if r.Success? && !r.value.changed {
        SameEpochs(before, after);
      }
    }
  }

  lemma SameEpochs<M>(a: World<M>, b: World<M>)
    requires a.module_ == b.module_ && forall k | 0 <= k < 3 :: a.epochs[k] == b.epochs[k]
    ensures a == b
  {
    assert a.epochs == b.epochs;
  }

  /** Cache coherence: after any passes, a cache hits exactly when the module is still
      in the state, unchanged by any pass, that the cache was computed from. */
  lemma CacheCoherent<M, T>(
    world: World<M>, passes: seq<Pass<M>>, verify: M -> Option<string>, i: nat, j: nat,
    cache: AnalysisCache<T>, state: AnalysisState)
    requires i <= j <= |passes|
    requires cache.identity == state.identity
    requires cache.epoch == RunAll(world, passes, verify, i).epochs[IndexOf(cache.kind)]
    requires state.epochs == RunAll(world, passes, verify, j).epochs
    ensures Get(cache, state).Some? <==> RunAll(world, passes, verify, j) == RunAll(world, passes, verify, i)
    ensures Get(cache, state).Some? ==>
      RunAll(world, passes, verify, j).module_ == RunAll(world, passes, verify, i).module_
  {
    hide RunAll;
    EpochsTrackModule(world, passes, verify, i, j);
  }
}
