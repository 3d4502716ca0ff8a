/** When pass one of the fixed-width assembler refuses a statement, said in terms of
    the statements before it. */
module FixedRefusals {
  import opened Bits
  import opened Wrappers
  import opened AsmSections
  import opened FixedScan

  ghost predicate LabelBefore(items: seq<Item>, k: nat, name: Name)
    requires k <= |items|
  {
    exists j: nat :: j < k && items[j] == Label(name)
  }

  /** A declaration before `k` names it; with `isExtern`, an external one. */
  ghost predicate DeclaredBefore(items: seq<Item>, k: nat, name: Name, isExtern: bool)
    requires k <= |items|
  {
    exists j: nat :: j < k && items[j].Declare? && name in items[j].names && (isExtern ==> items[j].isExtern)
  }

  /** The section that the last selection before `k` names. */
  ghost function SelectedBefore(items: seq<Item>, k: nat): Name
    requires k <= |items|
  {
    if k == 0 then ".text"
    else if items[k - 1].Select? then items[k - 1].section
    else SelectedBefore(items, k - 1)
  }

  /** What the tables of pass one say about the statements it has seen. */
  ghost predicate TablesInv(items: seq<Item>, k: nat, st: Scan)
    requires k <= |items| && st.Sound()
  {
    && (forall name :: name in st.symbols <==> LabelBefore(items, k, name) || DeclaredBefore(items, k, name, true))
    && (forall name | name in st.symbols :: st.symbols[name].section.Some? <==> LabelBefore(items, k, name))
    && (forall name :: name in st.globals <==> DeclaredBefore(items, k, name, false))
    && st.sections[st.selected].name == SelectedBefore(items, k)
    && Distinct(st)
  }

  ghost predicate Distinct(st: Scan) {
    forall s, t | 0 <= s < t < |st.sections| :: st.sections[s].name != st.sections[t].name
  }

  ghost function Earlier(names: seq<Name>, n: nat): set<Name>
    requires n <= |names|
  {
    set name | name in names[..n]
  }

  /** The refusal of the name at place `n` of a declaration, if any: the names before
      it in the same declaration count as declared. */
  ghost function NameRefusal(items: seq<Item>, k: nat, st: Scan, names: seq<Name>, n: nat, isExtern: bool): Option<ErrorKind>
    requires k <= |items| && n < |names|
  {
    var earlier := Earlier(names, n);
    if |st.globals + earlier| >= 65536 then Some(TooManyGlobals)
    else if isExtern && LabelBefore(items, k, names[n]) then Some(AlreadyDefined(names[n]))
    else if isExtern && names[n] !in st.symbols.Keys + earlier && |st.symbols.Keys + earlier| >= 65536
    then Some(TooManySymbols)
    else None
  }

  ghost predicate IsWordPower(value: nat) {
    exists e: nat :: e < 64 && value == Pow2(e)
  }

  /** The refusal of a directive or an instruction, if any. */
  ghost function EmitRefusal(st: Scan, action: Action, maxOutput: nat): Option<ErrorKind>
    requires st.Sound()
  {
    var kind, at := st.sections[st.selected].kind, st.sizes[st.selected];
    var size := ActionSize(action, at);
    if action.Data? && |action.values| == 0 then Some(NoValues)
    else if action.Align? && !IsWordPower(action.alignment) then Some(BadAlignment)
    else if kind == Bss && (action.Data? || action.Execute?) then Some(BadBss)
    else if action.Execute? && !(kind == Text && at % 4 == 0) then Some(BadInstruction)
    else if at + size >= WORD_64 then Some(SizeOverflow)
    else if kind != Bss && (st.materialized + size > maxOutput || st.materialized + size > 0x1000_0000) then Some(OutputLimit)
    else if |st.records| >= 262144 then Some(TooManyRecords)
    else None
  }

  /** The refusal of statement `k`, or its acceptance, as the program before it calls for. */
  ghost predicate Meets(items: seq<Item>, k: nat, st: Scan, maxOutput: nat, e: Option<ErrorKind>)
    requires k < |items| && st.Sound()
  {
    match items[k]
    case Label(name) => e ==
      (if |st.symbols| >= 65536 then Some(TooManySymbols)
      else if LabelBefore(items, k, name) || DeclaredBefore(items, k, name, true) then Some(DuplicateSymbol(name))
      else None)
    case Select(name) => e ==
      (if |st.sections| >= 4096 && forall s | 0 <= s < |st.sections| :: st.sections[s].name != name
      then Some(TooManySections) else None)
    case Declare(names, isExtern) =>
      if |names| == 0 then e == Some(NoNames) else NamesMeet(items, k, st, names, |names|, isExtern, e)
    case Emit(action) => e == EmitRefusal(st, action, maxOutput)
  }

  /** Every name up to `n` is accepted, or the first refused one is reported. */
  ghost predicate NamesMeet(
    items: seq<Item>, k: nat, st: Scan, names: seq<Name>, n: nat, isExtern: bool, e: Option<ErrorKind>)
    requires k <= |items| && n <= |names|
  {
    if e.None? then NamesPass(items, k, st, names, n, isExtern)
    else exists m: nat | m < n ::
      NamesPass(items, k, st, names, m, isExtern) && NameRefusal(items, k, st, names, m, isExtern) == e
  }

  ghost predicate NamesPass(items: seq<Item>, k: nat, st: Scan, names: seq<Name>, n: nat, isExtern: bool)
    requires k <= |items| && n <= |names|
  {
    forall m: nat | m < n :: NameRefusal(items, k, st, names, m, isExtern).None?
  }

  function ErrorOf(r: Result<Scan, ErrorKind>): Option<ErrorKind> {
    if r.Success? then None else Some(r.error)
  }

  lemma PowerBelowWord(value: nat)
    ensures IsWordPower(value) <==> value < WORD_64 && IsPowerOfTwo(value)
  {
    hide IsPowerOfTwo, Pow2;
    Pow2At64();
    if value < WORD_64 && IsPowerOfTwo(value) {
      var e := PowerOfTwoExponent(value);
      if e >= 64 {
        Pow2Monotone(64, e);
      }
    }
    forall e: nat | e < 64 && value == Pow2(e)
      ensures value < WORD_64 && IsPowerOfTwo(value)
    {
      Pow2IsPowerOfTwo(e);
      Pow2Monotone(e + 1, 64);
      PowStep(e);
    }
  }

  lemma PowStep(e: nat)
    ensures Pow2(e) < Pow2(e + 1)
  {
  }

  lemma EmitMeets(items: seq<Item>, k: nat, st: Scan, maxOutput: nat)
    requires k < |items| && st.Sound() && items[k].Emit?
    ensures Meets(items, k, st, maxOutput, ErrorOf(Step(st, items[k], k, maxOutput)))
  {
    hide IsWordPower, IsPowerOfTwo, ActionSize;
    if items[k].action.Align? {
      PowerBelowWord(items[k].action.alignment);
    }
  }

  lemma SelectMeets(items: seq<Item>, k: nat, st: Scan, maxOutput: nat)
    requires k < |items| && st.Sound() && items[k].Select?
    ensures Meets(items, k, st, maxOutput, ErrorOf(Step(st, items[k], k, maxOutput)))
  {
    var names := Names(st.sections);
    var index := FirstIndex(names, items[k].section);
    assert forall s | 0 <= s < |names| :: names[s] == st.sections[s].name;
  }

  /** What the first `n` names of a declaration add to the tables. */
  ghost predicate Adds(st: Scan, names: seq<Name>, n: nat, isExtern: bool, after: Scan)
    requires n <= |names|
  {
    var earlier := Earlier(names, n);
    && after.Sound()
    && after.globals == st.globals + earlier
    && after.symbols.Keys == st.symbols.Keys + (if isExtern then earlier else {})
    && OnlyDeclares(st, after)
  }

  lemma OneMore(names: seq<Name>, n: nat)
    requires n < |names|
    ensures Earlier(names, n + 1) == Earlier(names, n) + {names[n]}
  {
    assert names[..n + 1] == names[..n] + [names[n]];
  }

  lemma DeclareAdds(st: Scan, mid: Scan, names: seq<Name>, n: nat, isExtern: bool)
    requires st.Sound() && n < |names| && Adds(st, names, n, isExtern, mid)
    requires DeclareName(mid, names[n], isExtern).Success?
    ensures Adds(st, names, n + 1, isExtern, DeclareName(mid, names[n], isExtern).value)
  {
    hide OnlyDeclares, Earlier, DeclareName;
    OneMore(names, n);
    DeclareNameAdds(mid, names[n], isExtern);
    DeclareOne(st, mid, names[n], isExtern);
  }

  lemma DeclareNameAdds(mid: Scan, name: Name, isExtern: bool)
    requires mid.Sound() && DeclareName(mid, name, isExtern).Success?
    ensures var after := DeclareName(mid, name, isExtern).value;
      && after.globals == mid.globals + {name}
      && after.symbols.Keys == mid.symbols.Keys + (if isExtern then {name} else {})
  {
  }

  lemma NameMeets(items: seq<Item>, k: nat, st: Scan, mid: Scan, names: seq<Name>, n: nat, isExtern: bool)
    requires k <= |items| && st.Sound() && TablesInv(items, k, st)
    requires n < |names| && Adds(st, names, n, isExtern, mid)
    ensures ErrorOf(DeclareName(mid, names[n], isExtern)) == NameRefusal(items, k, st, names, n, isExtern)
  {
    hide LabelBefore, DeclaredBefore, SelectedBefore;
    assert |mid.symbols| == |mid.symbols.Keys|;
  }

  lemma {:induction false} NamesMeetAll(
    items: seq<Item>, k: nat, st: Scan, names: seq<Name>, n: nat, isExtern: bool)
    requires k <= |items| && st.Sound() && TablesInv(items, k, st) && n <= |names|
    ensures NamesMeet(items, k, st, names, n, isExtern, ErrorOf(DeclareNames(st, names, n, isExtern)))
    ensures DeclareNames(st, names, n, isExtern).Success? ==>
      Adds(st, names, n, isExtern, DeclareNames(st, names, n, isExtern).value)
  {
    hide TablesInv, DeclareName, Adds, NameRefusal;
    if n == 0 {
      AddsNone(st, names, isExtern);
    } else {
      NamesMeetAll(items, k, st, names, n - 1, isExtern);
      var before := DeclareNames(st, names, n - 1, isExtern);
      if before.Success? {
        NameMeets(items, k, st, before.value, names, n - 1, isExtern);
        if DeclareName(before.value, names[n - 1], isExtern).Success? {
          DeclareAdds(st, before.value, names, n - 1, isExtern);
        }
      }
    }
  }

  lemma AddsNone(st: Scan, names: seq<Name>, isExtern: bool)
    requires st.Sound()
    ensures Adds(st, names, 0, isExtern, st)
  {
  }

  /** Pass one refuses a statement exactly when the program before it calls for it,
      with that error. */
  lemma StepMeets(items: seq<Item>, k: nat, st: Scan, maxOutput: nat)
    requires k < |items| && st.Sound() && TablesInv(items, k, st)
    ensures Meets(items, k, st, maxOutput, ErrorOf(Step(st, items[k], k, maxOutput)))
  {
    hide TablesInv, NamesMeet, EmitRefusal, Place, SelectSection;
    match items[k]
    case Label(name) => LabelMeets(items, k, st, maxOutput);
    case Select(_) => SelectMeets(items, k, st, maxOutput);
    case Declare(names, isExtern) =>
      hide Adds;
      NamesMeetAll(items, k, st, names, |names|, isExtern);
    case Emit(_) => EmitMeets(items, k, st, maxOutput);
  }

  lemma LabelMeets(items: seq<Item>, k: nat, st: Scan, maxOutput: nat)
    requires k < |items| && st.Sound() && TablesInv(items, k, st) && items[k].Label?
    ensures Meets(items, k, st, maxOutput, ErrorOf(Step(st, items[k], k, maxOutput)))
  {
    hide LabelBefore, DeclaredBefore, SelectedBefore;
  }

  /** How an accepted statement changes the tables. */
  ghost predicate Changes(st: Scan, item: Item, after: Scan)
    requires st.Sound() && after.Sound()
  {
    && (forall name :: name in after.symbols <==>
         name in st.symbols || item == Label(name) || (item.Declare? && item.isExtern && name in item.names))
    && (forall name | name in after.symbols ::
         after.symbols[name].section.Some? <==>
         (name in st.symbols && st.symbols[name].section.Some?) || item == Label(name))
    && (forall name :: name in after.globals <==> name in st.globals || (item.Declare? && name in item.names))
    && after.sections[after.selected].name == (if item.Select? then item.section else st.sections[st.selected].name)
  }

  lemma TablesFrom(items: seq<Item>, k: nat, st: Scan, after: Scan)
    requires k < |items| && st.Sound() && after.Sound() && TablesInv(items, k, st)
    requires Changes(st, items[k], after) && Distinct(after)
    ensures TablesInv(items, k + 1, after)
  {
    hide LabelBefore, DeclaredBefore;
    var n := k + 1;
    forall name
      ensures LabelBefore(items, n, name) <==> LabelBefore(items, k, name) || items[k] == Label(name)
      ensures DeclaredBefore(items, n, name, true) <==>
          (DeclaredBefore(items, k, name, true) || (items[k].Declare? && name in items[k].names && items[k].isExtern))
      ensures DeclaredBefore(items, n, name, false) <==>
          (DeclaredBefore(items, k, name, false) || (items[k].Declare? && name in items[k].names))
    {
      OneMoreStatement(items, k, name);
    }
  }

  lemma OneMoreStatement(items: seq<Item>, k: nat, name: Name)
    requires k < |items|
    ensures LabelBefore(items, k + 1, name) <==> LabelBefore(items, k, name) || items[k] == Label(name)
    ensures DeclaredBefore(items, k + 1, name, true) <==>
      (DeclaredBefore(items, k, name, true) || (items[k].Declare? && name in items[k].names && items[k].isExtern))
    ensures DeclaredBefore(items, k + 1, name, false) <==>
      (DeclaredBefore(items, k, name, false) || (items[k].Declare? && name in items[k].names))
  {
  }

  lemma SelectChanges(st: Scan, name: Name, after: Scan)
    requires st.Sound() && SelectSection(st, name) == Success(after) && Distinct(st)
    ensures Changes(st, Select(name), after) && Distinct(after)
  {
    var names := Names(st.sections);
    assert forall s | 0 <= s < |names| :: names[s] == st.sections[s].name;
  }

  lemma DeclareChanges(items: seq<Item>, k: nat, st: Scan, names: seq<Name>, isExtern: bool, after: Scan)
    requires k < |items| && st.Sound() && TablesInv(items, k, st) && items[k] == Declare(names, isExtern)
    requires DeclareNames(st, names, |names|, isExtern) == Success(after)
    ensures Changes(st, items[k], after) && Distinct(after)
  {
    hide NamesMeet, DeclareNames, LabelBefore, DeclaredBefore, SelectedBefore;
    NamesMeetAll(items, k, st, names, |names|, isExtern);
    assert names[..|names|] == names;
    assert forall name :: name in after.symbols <==> name in after.symbols.Keys;
  }

  lemma OtherChanges(st: Scan, item: Item, site: nat, maxOutput: nat, after: Scan)
    requires st.Sound() && Step(st, item, site, maxOutput) == Success(after) && Distinct(st)
    requires item.Label? || item.Emit?
    ensures Changes(st, item, after) && Distinct(after)
  {
    hide ActionSize, ActionError;
  }

  lemma TablesStep(items: seq<Item>, k: nat, st: Scan, maxOutput: nat, after: Scan)
    requires k < |items| && st.Sound() && TablesInv(items, k, st)
    requires Step(st, items[k], k, maxOutput) == Success(after)
    ensures TablesInv(items, k + 1, after)
  {
    hide LabelBefore, DeclaredBefore, Changes, SelectedBefore;
    match items[k] {
      case Select(name) => SelectChanges(st, name, after);
      case Declare(names, isExtern) => DeclareChanges(items, k, st, names, isExtern, after);
      case Label(_) => OtherChanges(st, items[k], k, maxOutput, after);
      case Emit(_) => OtherChanges(st, items[k], k, maxOutput, after);
    }
    TablesFrom(items, k, st, after);
  }

  lemma {:induction false} ScanTables(items: seq<Item>, k: nat, maxOutput: nat)
    requires k <= |items| && ScanTo(items, k, maxOutput).Success?
    ensures TablesInv(items, k, ScanTo(items, k, maxOutput).value)
  {
    hide Step;
    if k > 0 {
      hide TablesInv;
      ScanTables(items, k - 1, maxOutput);
      TablesStep(items, k - 1, ScanTo(items, k - 1, maxOutput).value, maxOutput, ScanTo(items, k, maxOutput).value);
    }
  }

  /** Pass one accepts statement `k` after the statements before it. */
  ghost predicate Accepts(items: seq<Item>, k: nat, maxOutput: nat)
    requires k < |items|
  {
    ScanTo(items, k, maxOutput).Success? && Meets(items, k, ScanTo(items, k, maxOutput).value, maxOutput, None)
  }

  /** Pass one accepts the statements before `k` and reports the refusal of statement `k`. */
  ghost predicate Stops(items: seq<Item>, k: nat, maxOutput: nat, e: FixedError)
    requires k < |items|
  {
    && (forall j: nat | j < k :: Accepts(items, j, maxOutput))
    && ScanTo(items, k, maxOutput).Success?
    && e.At? && e.item == k
    && Meets(items, k, ScanTo(items, k, maxOutput).value, maxOutput, Some(e.kind))
  }

  lemma MeetsOnce(items: seq<Item>, k: nat, st: Scan, maxOutput: nat, e: ErrorKind)
    requires k < |items| && st.Sound()
    ensures !(Meets(items, k, st, maxOutput, None) && Meets(items, k, st, maxOutput, Some(e)))
  {
    hide NameRefusal, EmitRefusal, LabelBefore, DeclaredBefore;
  }

  /** Pass one gets through all statements exactly when it refuses none of them;
      otherwise it reports the refusal of the first, at that statement. */
  lemma {:induction false} ScanRefuses(items: seq<Item>, n: nat, maxOutput: nat)
    requires n <= |items|
    ensures ScanTo(items, n, maxOutput).Success? <==> forall k: nat | k < n :: Accepts(items, k, maxOutput)
    ensures ScanTo(items, n, maxOutput).Failure? ==>
      exists k: nat | k < n :: Stops(items, k, maxOutput, ScanTo(items, n, maxOutput).error)
  {
    hide Step, Meets;
    if n > 0 {
      ScanRefuses(items, n - 1, maxOutput);
      if ScanTo(items, n - 1, maxOutput).Success? {
        var st := ScanTo(items, n - 1, maxOutput).value;
        ScanTables(items, n - 1, maxOutput);
        StepMeets(items, n - 1, st, maxOutput);
        if ScanTo(items, n, maxOutput).Failure? {
          assert Stops(items, n - 1, maxOutput, ScanTo(items, n, maxOutput).error);
          MeetsOnce(items, n - 1, st, maxOutput, ScanTo(items, n, maxOutput).error.kind);
          assert !Accepts(items, n - 1, maxOutput);
        } else {
          assert Accepts(items, n - 1, maxOutput);
        }
      } else {
        var k: nat :| k < n - 1 && Stops(items, k, maxOutput, ScanTo(items, n - 1, maxOutput).error);
        assert Stops(items, k, maxOutput, ScanTo(items, n, maxOutput).error);
      }
    }
  }
}
