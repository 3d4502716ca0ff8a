/**
  The assembler for fixed-width instruction sets, pass one: every directive and
  instruction gets a section offset before anything is emitted.
 */
module FixedScan {
  import opened Bits
  import opened Wrappers
  import opened IrTypes
  import opened AsmSections
  import opened FixedFields

  datatype Expression = Number(n: int) | SymbolPlus(name: Name, addend: int)

  /** An instruction is a code for the instruction set, with at most one operand
      that is a branch target. */
  datatype Instruction = Instruction(code: nat, target: Option<Expression>)

  type DataWidth = w: nat | w == 1 || w == 2 || w == 4 || w == 8 witness 1

  datatype Action =
    | Execute(instruction: Instruction)
    | Data(width: DataWidth, values: seq<Expression>)
    | Zero(size: nat)
    | Align(alignment: nat)

  /** Source statements, in order. */
  datatype Item =
    | Label(name: Name)
    | Select(section: Name)
    | Declare(names: seq<Name>, isExtern: bool)
    | Emit(action: Action)

  datatype Symbol = Symbol(section: Option<nat>, offset: nat)

  datatype Record = Record(section: nat, offset: nat, action: Action, site: nat)

  datatype SectionInfo = SectionInfo(name: Name, kind: SectionKind, align: nat)

  datatype ErrorKind =
    | TooManySymbols | DuplicateSymbol(name: Name) | TooManySections | TooManyGlobals
    | AlreadyDefined(name: Name) | NoNames | NoValues | BadAlignment | BadBss | BadInstruction
    | SizeOverflow | OutputLimit | TooManyRecords
    | UndefinedSymbol(name: Name) | ValueRange | SymbolWidth | Encoding

  datatype FixedError = At(kind: ErrorKind, item: nat) | MissingGlobal(name: Name) | NoPasses

  const MAX_NAMES := 65536
  const MAX_SECTIONS := 4096
  const MAX_RECORDS := 262144
  const MAX_OUTPUT := 0x1000_0000

  datatype Scan = Scan(
    sections: seq<SectionInfo>, sizes: seq<nat>, selected: nat, symbols: map<Name, Symbol>,
    globals: set<Name>, records: seq<Record>, materialized: nat)
  {
    predicate Sound() {
      |sections| == |sizes| && selected < |sections|
    }
  }

  const START := Scan([SectionInfo(".text", Text, 4)], [0], 0, map[], {}, [], 0)

  function Names(sections: seq<SectionInfo>): (names: seq<Name>)
    ensures |names| == |sections|
  {
    seq(|sections|, i requires 0 <= i < |sections| => sections[i].name)
  }

  /** How many bytes an action takes at an offset. */
  function ActionSize(action: Action, offset: nat): nat {
    match action
    case Execute(_) => 4
    case Data(width, values) => ItemBytes(width, |values|)
    case Zero(size) => size
    case Align(alignment) => if alignment == 0 then 0 else (alignment - offset % alignment) % alignment
  }

  function ItemBytes(width: nat, count: nat): (n: nat) {
    if count == 0 then 0 else width + ItemBytes(width, count - 1)
  }

  function DefineLabel(st: Scan, name: Name): (r: Result<Scan, ErrorKind>)
    requires st.Sound()
    ensures r.Success? ==> r.value.Sound()
  {
    if |st.symbols| >= MAX_NAMES then Failure(TooManySymbols)
    else if name in st.symbols then Failure(DuplicateSymbol(name))
    else Success(st.(symbols := st.symbols[name := Symbol(Some(st.selected), st.sizes[st.selected])]))
  }

  function SelectSection(st: Scan, name: Name): (r: Result<Scan, ErrorKind>)
    requires st.Sound()
    ensures r.Success? ==> r.value.Sound()
  {
    var index := FirstIndex(Names(st.sections), name);
    if index < |st.sections| then Success(st.(selected := index))
    else if |st.sections| >= MAX_SECTIONS then Failure(TooManySections)
    else
      var kind := DefaultKind(name);
      Success(st.(
        sections := st.sections + [SectionInfo(name, kind, if kind == Text then 4 else 1)],
        sizes := st.sizes + [0], selected := |st.sections|))
  }

  function DeclareName(st: Scan, name: Name, isExtern: bool): (r: Result<Scan, ErrorKind>)
    requires st.Sound()
    ensures r.Success? ==> r.value.Sound()
  {
    if |st.globals| >= MAX_NAMES then Failure(TooManyGlobals)
    else
      var declared := st.(globals := st.globals + {name});
      if !isExtern then Success(declared)
      else if name in st.symbols then
        if st.symbols[name].section.Some? then Failure(AlreadyDefined(name)) else Success(declared)
      else if |st.symbols| >= MAX_NAMES then Failure(TooManySymbols)
      else Success(declared.(symbols := st.symbols[name := Symbol(None, 0)]))
  }

  function DeclareNames(st: Scan, names: seq<Name>, n: nat, isExtern: bool): (r: Result<Scan, ErrorKind>)
    requires st.Sound() && n <= |names|
    ensures r.Success? ==> r.value.Sound()
  {
    if n == 0 then Success(st)
    else
      var before := DeclareNames(st, names, n - 1, isExtern);
      if before.Failure? then before else DeclareName(before.value, names[n - 1], isExtern)
  }

  /** The checks on an action before it is placed. */
  function ActionError(st: Scan, action: Action): Option<ErrorKind>
    requires st.Sound()
  {
    var kind := st.sections[st.selected].kind;
    if action.Data? && action.values == [] then Some(NoValues)
    else if action.Align? && !(action.alignment < WORD_64 && IsPowerOfTwo(action.alignment)) then Some(BadAlignment)
    else if kind == Bss && !action.Zero? && !action.Align? then Some(BadBss)
    else if action.Execute? && (kind != Text || st.sizes[st.selected] % 4 != 0) then Some(BadInstruction)
    else None
  }

  function Place(st: Scan, action: Action, site: nat, maxOutput: nat): (r: Result<Scan, ErrorKind>)
    requires st.Sound()
    ensures r.Success? ==> r.value.Sound()
  {
    var error := ActionError(st, action);
    if error.Some? then Failure(error.value)
    else
      var s, offset := st.selected, st.sizes[st.selected];
      var info := st.sections[s];
      var aligned :=
        if action.Align? && action.alignment > info.align then info.(align := action.alignment) else info;
      var size := ActionSize(action, offset);
      var limit := if maxOutput <= MAX_OUTPUT then maxOutput else MAX_OUTPUT;
      if size >= WORD_64 || offset + size >= WORD_64 then Failure(SizeOverflow)
      else if info.kind != Bss && st.materialized + size > limit then Failure(OutputLimit)
      else if |st.records| >= MAX_RECORDS then Failure(TooManyRecords)
      else
        Success(st.(
          sections := st.sections[s := aligned],
          sizes := st.sizes[s := offset + size],
          materialized := if info.kind != Bss then st.materialized + size else st.materialized,
          records := st.records + [Record(s, offset, action, site)]))
  }

  function Step(st: Scan, item: Item, site: nat, maxOutput: nat): (r: Result<Scan, ErrorKind>)
    requires st.Sound()
    ensures r.Success? ==> r.value.Sound()
  {
    match item
    case Label(name) => DefineLabel(st, name)
    case Select(section) => SelectSection(st, section)
    case Declare(names, isExtern) =>
      if names == [] then Failure(NoNames) else DeclareNames(st, names, |names|, isExtern)
    case Emit(action) => Place(st, action, site, maxOutput)
  }

  /** Pass one over the first `k` items. */
  ghost function ScanTo(items: seq<Item>, k: nat, maxOutput: nat): (r: Result<Scan, FixedError>)
    requires k <= |items|
    ensures r.Success? ==> r.value.Sound()
  {
    if k == 0 then Success(START)
    else
      var before := ScanTo(items, k - 1, maxOutput);
      if before.Failure? then before
      else
        var after := Step(before.value, items[k - 1], k - 1, maxOutput);
        if after.Failure? then Failure(At(after.error, k - 1)) else Success(after.value)
  }

  /** The bytes that the records before `k` put into section `s`. */
  ghost function SizeBefore(records: seq<Record>, s: nat, k: nat): nat
    requires k <= |records|
  {
    if k == 0 then 0
    else
      var r := records[k - 1];
      SizeBefore(records, s, k - 1) + if r.section == s then ActionSize(r.action, r.offset) else 0
  }

  lemma {:induction false} SizeBeforePrefix(a: seq<Record>, b: seq<Record>, s: nat, k: nat)
    requires k <= |a| <= |b| && a == b[..|a|]
    ensures SizeBefore(b, s, k) == SizeBefore(a, s, k)
  {
    if k > 0 {
      SizeBeforePrefix(a, b, s, k - 1);
      assert a[k - 1] == b[..|a|][k - 1] == b[k - 1];
    }
  }

  /** The bytes of all sections that hold bytes. */
  ghost function Materialized(sections: seq<SectionInfo>, sizes: seq<nat>, n: nat): nat
    requires n <= |sections| == |sizes|
  {
    if n == 0 then 0
    else Materialized(sections, sizes, n - 1) + if sections[n - 1].kind == Bss then 0 else sizes[n - 1]
  }

  lemma {:induction false} MaterializedUpdate(
    a: seq<SectionInfo>, b: seq<SectionInfo>, x: seq<nat>, y: seq<nat>, s: nat, n: nat)
    requires n <= |a| == |b| == |x| == |y| && s < |a|
    requires forall i | 0 <= i < |a| :: a[i].kind == b[i].kind && (i != s ==> x[i] == y[i])
    requires x[s] <= y[s]
    ensures Materialized(b, y, n) == Materialized(a, x, n)
      + if s < n && a[s].kind != Bss then y[s] - x[s] else 0
  {
    if n > 0 {
      MaterializedUpdate(a, b, x, y, s, n - 1);
    }
  }

  lemma {:induction false} MaterializedPrefix(
    a: seq<SectionInfo>, b: seq<SectionInfo>, x: seq<nat>, y: seq<nat>, n: nat)
    requires n <= |a| == |x| && |b| == |y| && |a| <= |b| && a == b[..|a|] && x == y[..|x|]
    ensures Materialized(b, y, n) == Materialized(a, x, n)
  {
    if n > 0 {
      MaterializedPrefix(a, b, x, y, n - 1);
      assert a[n - 1] == b[..|a|][n - 1] && x[n - 1] == y[..|x|][n - 1];
    }
  }

  /** A record starts where the records before it in its section end. */
  ghost predicate Placed(st: Scan, k: nat)
    requires k < |st.records|
  {
    var r := st.records[k];
    && r.section < |st.sections|
    && r.offset == SizeBefore(st.records, r.section, k)
    && (r.action.Execute? ==> st.sections[r.section].kind == Text && r.offset % 4 == 0)
    && (st.sections[r.section].kind == Bss ==> r.action.Zero? || r.action.Align?)
    && (r.action.Align? ==>
         IsPowerOfTwo(r.action.alignment) && r.action.alignment <= st.sections[r.section].align)
  }

  ghost predicate SizesMatch(st: Scan) {
    forall s: nat | s < |st.sizes| :: st.sizes[s] == SizeBefore(st.records, s, |st.records|)
  }

  ghost predicate RecordsPlaced(st: Scan) {
    forall k: nat | k < |st.records| :: Placed(st, k)
  }

  ghost predicate OutputBounded(st: Scan, maxOutput: nat) {
    && |st.sections| == |st.sizes|
    && st.materialized == Materialized(st.sections, st.sizes, |st.sizes|)
    && st.materialized <= MAX_OUTPUT && st.materialized <= maxOutput
  }

  ghost predicate ScanInv(st: Scan, maxOutput: nat) {
    st.Sound() && SizesMatch(st) && RecordsPlaced(st) && OutputBounded(st, maxOutput)
  }

  /** `after` differs from `st` in its globals, and in new external symbols. */
  ghost predicate OnlyDeclares(st: Scan, after: Scan) {
    && after.(globals := st.globals, symbols := st.symbols) == st
    && (forall name | name in st.symbols :: name in after.symbols && after.symbols[name] == st.symbols[name])
    && (forall name | name in after.symbols && name !in st.symbols :: after.symbols[name] == Symbol(None, 0))
  }

  lemma {:induction false} DeclareChangesNames(st: Scan, names: seq<Name>, n: nat, isExtern: bool)
    requires st.Sound() && n <= |names| && DeclareNames(st, names, n, isExtern).Success?
    ensures OnlyDeclares(st, DeclareNames(st, names, n, isExtern).value)
  {
    hide OnlyDeclares, DeclareName;
    if n > 0 {
      DeclareChangesNames(st, names, n - 1, isExtern);
      DeclareOne(st, DeclareNames(st, names, n - 1, isExtern).value, names[n - 1], isExtern);
    } else {
      DeclareNone(st);
    }
  }

  lemma DeclareNone(st: Scan)
    ensures OnlyDeclares(st, st)
  {
  }

  lemma DeclareOne(st: Scan, mid: Scan, name: Name, isExtern: bool)
    requires mid.Sound() && OnlyDeclares(st, mid) && DeclareName(mid, name, isExtern).Success?
    ensures OnlyDeclares(st, DeclareName(mid, name, isExtern).value)
  {
  }

  /** Every declared name becomes global, and an external one gets a symbol without
      a section. */
  lemma {:induction false} DeclaresAll(st: Scan, names: seq<Name>, n: nat, isExtern: bool)
    requires st.Sound() && n <= |names| && DeclareNames(st, names, n, isExtern).Success?
    ensures var after := DeclareNames(st, names, n, isExtern).value;
      && (forall name :: name in after.globals <==> name in st.globals || name in names[..n])
      && (isExtern ==> forall name | name in names[..n] ::
           name in after.symbols && after.symbols[name].section.None?)
  {
    hide DeclareName;
    if n > 0 {
      DeclaresAll(st, names, n - 1, isExtern);
      assert names[..n] == names[..n - 1] + [names[n - 1]];
      DeclaresName(DeclareNames(st, names, n - 1, isExtern).value, names[n - 1], isExtern);
    }
  }

  lemma DeclaresName(st: Scan, name: Name, isExtern: bool)
    requires st.Sound() && DeclareName(st, name, isExtern).Success?
    ensures var after := DeclareName(st, name, isExtern).value;
      && after.globals == st.globals + {name}
      && (isExtern ==> name in after.symbols && after.symbols[name].section.None?)
      && (forall other | other in st.symbols :: other in after.symbols && after.symbols[other] == st.symbols[other])
  {
  }

  /** An alignment directive brings its section to a multiple of its operand. */
  lemma AlignReaches(alignment: nat, offset: nat)
    requires alignment > 0
    ensures (offset + ActionSize(Align(alignment), offset)) % alignment == 0
    ensures ActionSize(Align(alignment), offset) < alignment
  {
    var q, r := offset / alignment, offset % alignment;
    assert offset == alignment * q + r;
    if r == 0 {
      DivModUnique(alignment, alignment, 1, 0);
      DivModUnique(offset, alignment, q, 0);
    } else {
      DivModUnique(alignment - r, alignment, 0, alignment - r);
      assert alignment * (q + 1) == alignment * q + alignment;
      DivModUnique(offset + (alignment - r), alignment, q + 1, 0);
    }
  }

  /** The invariant does not depend on the symbol tables. */
  lemma SameLayoutKeeps(a: Scan, b: Scan, maxOutput: nat)
    requires ScanInv(a, maxOutput) && b.Sound()
    requires a.sections == b.sections && a.sizes == b.sizes && a.records == b.records && a.materialized == b.materialized
    ensures ScanInv(b, maxOutput)
  {
    hide SizeBefore, Materialized;
    forall k: nat | k < |b.records| ensures Placed(b, k) {
      assert Placed(a, k);
    }
  }

  lemma {:induction false} NothingElsewhere(records: seq<Record>, s: nat, k: nat)
    requires k <= |records| && forall j | 0 <= j < k :: records[j].section != s
    ensures SizeBefore(records, s, k) == 0
  {
    if k > 0 {
      NothingElsewhere(records, s, k - 1);
    }
  }

  lemma SelectKeeps(st: Scan, name: Name, maxOutput: nat)
    requires ScanInv(st, maxOutput) && SelectSection(st, name).Success?
    ensures ScanInv(SelectSection(st, name).value, maxOutput)
  {
    hide SizeBefore;
    var after := SelectSection(st, name).value;
    if after.sections == st.sections {
      SameLayoutKeeps(st, after, maxOutput);
    } else {
      var n := |st.sizes|;
      MaterializedPrefix(st.sections, after.sections, st.sizes, after.sizes, n);
      forall k: nat | k < |after.records| ensures Placed(after, k) {
        assert Placed(st, k);
      }
      forall j | 0 <= j < |st.records| ensures st.records[j].section != n {
        assert Placed(st, j);
      }
      NothingElsewhere(st.records, n, |st.records|);
    }
  }

  lemma PlaceKeeps(st: Scan, action: Action, site: nat, maxOutput: nat)
    requires ScanInv(st, maxOutput) && Place(st, action, site, maxOutput).Success?
    ensures ScanInv(Place(st, action, site, maxOutput).value, maxOutput)
  {
    hide Materialized, IsPowerOfTwo;
    var after := Place(st, action, site, maxOutput).value;
    var n := |st.records|;
    assert after.records[..n] == st.records;
    PlacedMaterializes(st, action, site, maxOutput);
    forall s: nat | s < |after.sizes| ensures after.sizes[s] == SizeBefore(after.records, s, |after.records|) {
      SizeBeforePrefix(st.records, after.records, s, n);
    }
    forall k: nat | k < |after.records| ensures Placed(after, k) {
      if k < n {
        assert Placed(st, k) && after.records[k] == st.records[k];
        SizeBeforePrefix(st.records, after.records, st.records[k].section, k);
      } else {
        SizeBeforePrefix(st.records, after.records, st.selected, n);
      }
    }
  }

  lemma PlacedMaterializes(st: Scan, action: Action, site: nat, maxOutput: nat)
    requires ScanInv(st, maxOutput) && Place(st, action, site, maxOutput).Success?
    ensures OutputBounded(Place(st, action, site, maxOutput).value, maxOutput)
  {
    hide Materialized, IsPowerOfTwo, SizeBefore, ActionSize, SizesMatch, RecordsPlaced;
    var after := Place(st, action, site, maxOutput).value;
    MaterializedUpdate(st.sections, after.sections, st.sizes, after.sizes, st.selected, |st.sizes|);
  }

  lemma StepKeeps(st: Scan, item: Item, site: nat, maxOutput: nat)
    requires ScanInv(st, maxOutput) && Step(st, item, site, maxOutput).Success?
    ensures ScanInv(Step(st, item, site, maxOutput).value, maxOutput)
  {
    hide SizesMatch, RecordsPlaced, OutputBounded, Place, SelectSection;
    match item
    case Label(name) => SameLayoutKeeps(st, DefineLabel(st, name).value, maxOutput);
    case Select(section) => SelectKeeps(st, section, maxOutput);
    case Declare(names, isExtern) =>
      DeclareChangesNames(st, names, |names|, isExtern);
      SameLayoutKeeps(st, DeclareNames(st, names, |names|, isExtern).value, maxOutput);
    case Emit(action) => PlaceKeeps(st, action, site, maxOutput);
  }

  /** Everything pass one promises about the layout, after any number of items. */
  lemma {:induction false} ScanKeeps(items: seq<Item>, k: nat, maxOutput: nat)
    requires k <= |items| && ScanTo(items, k, maxOutput).Success?
    ensures ScanInv(ScanTo(items, k, maxOutput).value, maxOutput)
  {
    hide Step;
    if k > 0 {
      hide ScanInv;
      ScanKeeps(items, k - 1, maxOutput);
      StepKeeps(ScanTo(items, k - 1, maxOutput).value, items[k - 1], k - 1, maxOutput);
    } else {
      assert Materialized(START.sections, START.sizes, 1) == 0;
    }
  }

  lemma {:induction false} ScanPrefix(items: seq<Item>, j: nat, k: nat, maxOutput: nat)
    requires j <= k <= |items|
    ensures ScanTo(items, j, maxOutput).Failure? ==> ScanTo(items, k, maxOutput) == ScanTo(items, j, maxOutput)
    ensures ScanTo(items, k, maxOutput).Success? ==>
      && ScanTo(items, j, maxOutput).Success?
      && ScanTo(items, j, maxOutput).value.records <= ScanTo(items, k, maxOutput).value.records
  {
    hide Step;
    if j < k {
      ScanPrefix(items, j, k - 1, maxOutput);
      if ScanTo(items, k, maxOutput).Success? {
        RecordsGrow(ScanTo(items, k - 1, maxOutput).value, items[k - 1], k - 1, maxOutput);
      }
    }
  }

  lemma RecordsGrow(st: Scan, item: Item, site: nat, maxOutput: nat)
    requires st.Sound() && Step(st, item, site, maxOutput).Success?
    ensures var after := Step(st, item, site, maxOutput).value;
      if item.Emit? then after.records == st.records + [Record(st.selected, st.sizes[st.selected], item.action, site)]
      else after.records == st.records
  {
    if item.Declare? {
      DeclareChangesNames(st, item.names, |item.names|, item.isExtern);
    }
  }

  /** The record of an emitting statement: it follows the records of the
      statements before it and goes to the section selected there. */
  lemma RecordOf(items: seq<Item>, i: nat, maxOutput: nat)
    requires i < |items| && items[i].Emit? && ScanTo(items, |items|, maxOutput).Success?
    ensures ScanTo(items, i, maxOutput).Success?
    ensures var before := ScanTo(items, i, maxOutput).value;
      var records := ScanTo(items, |items|, maxOutput).value.records;
      && |before.records| < |records|
      && records[|before.records|] == Record(before.selected, before.sizes[before.selected], items[i].action, i)
  {
    hide Step;
    ScanPrefix(items, i, |items|, maxOutput);
    ScanPrefix(items, i + 1, |items|, maxOutput);
    RecordsGrow(ScanTo(items, i, maxOutput).value, items[i], i, maxOutput);
  }

  /** Every record belongs to an emitting statement. */
  lemma {:induction false} RecordHasItem(items: seq<Item>, k: nat, maxOutput: nat, j: nat)
    requires k <= |items| && ScanTo(items, k, maxOutput).Success? && j < |ScanTo(items, k, maxOutput).value.records|
    ensures var r := ScanTo(items, k, maxOutput).value.records[j];
      r.site < k && items[r.site] == Emit(r.action) && ScanTo(items, r.site, maxOutput).Success?
      && |ScanTo(items, r.site, maxOutput).value.records| == j
  {
    hide Step;
    if k > 0 {
      var before := ScanTo(items, k - 1, maxOutput).value;
      RecordsGrow(before, items[k - 1], k - 1, maxOutput);
      if j < |before.records| {
        RecordHasItem(items, k - 1, maxOutput, j);
      }
    }
  }

  /** A symbol with a section is a label, and holds the place where its label stands. */
  ghost predicate LabelStands(items: seq<Item>, maxOutput: nat, symbol: Symbol, name: Name, i: nat)
    requires i < |items|
  {
    && items[i] == Label(name)
    && ScanTo(items, i, maxOutput).Success?
    && var before := ScanTo(items, i, maxOutput).value;
       symbol == Symbol(Some(before.selected), before.sizes[before.selected])
  }

  lemma {:induction false} SymbolIsLabel(items: seq<Item>, k: nat, maxOutput: nat, name: Name) returns (i: nat)
    requires k <= |items| && ScanTo(items, k, maxOutput).Success?
    requires name in ScanTo(items, k, maxOutput).value.symbols
    requires ScanTo(items, k, maxOutput).value.symbols[name].section.Some?
    ensures i < k && LabelStands(items, maxOutput, ScanTo(items, k, maxOutput).value.symbols[name], name, i)
  {
    hide SelectSection, Place, DeclareNames;
    assert k > 0;
    var before := ScanTo(items, k - 1, maxOutput).value;
    var after := ScanTo(items, k, maxOutput).value;
    SymbolsGrow(before, items[k - 1], k - 1, maxOutput);
    if name in before.symbols {
      i := SymbolIsLabel(items, k - 1, maxOutput, name);
    } else {
      i := k - 1;
    }
  }

  lemma SymbolsGrow(st: Scan, item: Item, site: nat, maxOutput: nat)
    requires st.Sound() && Step(st, item, site, maxOutput).Success?
    ensures var after := Step(st, item, site, maxOutput).value;
      && (forall name | name in st.symbols :: name in after.symbols && after.symbols[name] == st.symbols[name])
      && (forall name | name in after.symbols && name !in st.symbols && after.symbols[name].section.Some? ::
           item == Label(name) && after.symbols[name] == Symbol(Some(st.selected), st.sizes[st.selected]))
  {
    if item.Declare? {
      DeclareChangesNames(st, item.names, |item.names|, item.isExtern);
    }
  }

  /** The offset of a label is the number of bytes that the statements before it
      put into its section. */
  lemma LabelOffset(items: seq<Item>, maxOutput: nat, name: Name) returns (i: nat)
    requires ScanTo(items, |items|, maxOutput).Success?
    requires name in ScanTo(items, |items|, maxOutput).value.symbols
    requires ScanTo(items, |items|, maxOutput).value.symbols[name].section.Some?
    ensures i < |items| && items[i] == Label(name) && ScanTo(items, i, maxOutput).Success?
    ensures var before := ScanTo(items, i, maxOutput).value;
      var st := ScanTo(items, |items|, maxOutput).value;
      && |before.records| <= |st.records|
      && st.symbols[name] == Symbol(Some(before.selected), SizeBefore(st.records, before.selected, |before.records|))
  {
    hide Step, SizeBefore;
    i := SymbolIsLabel(items, |items|, maxOutput, name);
    ScanKeeps(items, i, maxOutput);
    ScanPrefix(items, i, |items|, maxOutput);
    var before := ScanTo(items, i, maxOutput).value;
    SizeBeforePrefix(before.records, ScanTo(items, |items|, maxOutput).value.records, before.selected, |before.records|);
  }

  /** The kind of every section follows from its name, and text sections are
      aligned for instructions. */
  ghost predicate KindsByName(st: Scan) {
    forall s: nat | s < |st.sections| ::
      && (st.sections[s].kind == Text <==> st.sections[s].name == ".text")
      && (st.sections[s].kind == ReadOnlyData <==> st.sections[s].name == ".rodata")
      && (st.sections[s].kind == Bss <==> st.sections[s].name == ".bss")
      && st.sections[s].align >= if st.sections[s].kind == Text then 4 else 1
  }

  lemma StepKinds(st: Scan, item: Item, site: nat, maxOutput: nat)
    requires st.Sound() && KindsByName(st) && Step(st, item, site, maxOutput).Success?
    ensures KindsByName(Step(st, item, site, maxOutput).value)
  {
    if item.Declare? {
      hide KindsByName;
      DeclareChangesNames(st, item.names, |item.names|, item.isExtern);
      var after := Step(st, item, site, maxOutput).value;
      assert after.sections == st.sections;
      SameKinds(st, after);
    }
  }

  lemma SameKinds(a: Scan, b: Scan)
    requires a.sections == b.sections && KindsByName(a)
    ensures KindsByName(b)
  {
  }

  lemma {:induction false} ScanKinds(items: seq<Item>, k: nat, maxOutput: nat)
    requires k <= |items| && ScanTo(items, k, maxOutput).Success?
    ensures KindsByName(ScanTo(items, k, maxOutput).value)
  {
    hide Step;
    if k > 0 {
      hide KindsByName;
      ScanKinds(items, k - 1, maxOutput);
      StepKinds(ScanTo(items, k - 1, maxOutput).value, items[k - 1], k - 1, maxOutput);
    }
  }

  /** The alignment of a section is the one it starts with or that of one of its
      directives; `Placed` says that no directive of the section has a larger one. */
  ghost predicate AlignFromProgram(st: Scan, s: nat)
    requires s < |st.sections|
  {
    || st.sections[s].align == (if st.sections[s].kind == Text then 4 else 1)
    || exists k: nat | k < |st.records| ::
         st.records[k].section == s && st.records[k].action == Align(st.sections[s].align)
  }

  lemma AlignStays(a: Scan, b: Scan, s: nat)
    requires s < |a.sections| && s < |b.sections| && a.sections[s] == b.sections[s] && a.records <= b.records
    requires AlignFromProgram(a, s)
    ensures AlignFromProgram(b, s)
  {
    if k: nat :| k < |a.records| && a.records[k].section == s && a.records[k].action == Align(a.sections[s].align) {
      assert b.records[k] == a.records[k];
    }
  }

  lemma StepAligns(st: Scan, item: Item, site: nat, maxOutput: nat, after: Scan, s: nat)
    requires st.Sound() && Step(st, item, site, maxOutput) == Success(after) && s < |after.sections|
    requires s < |st.sections| ==> AlignFromProgram(st, s)
    ensures AlignFromProgram(after, s)
  {
    hide AlignFromProgram, ActionSize, ActionError;
    if item.Declare? {
      DeclareChangesNames(st, item.names, |item.names|, item.isExtern);
    }
    if s < |st.sections| && after.sections[s] == st.sections[s] {
      AlignStays(st, after, s);
    } else {
      AlignIsNew(st, item, site, maxOutput, after, s);
    }
  }

  lemma AlignIsNew(st: Scan, item: Item, site: nat, maxOutput: nat, after: Scan, s: nat)
    requires st.Sound() && Step(st, item, site, maxOutput) == Success(after) && s < |after.sections|
    requires item.Select? || item.Emit?
    requires s < |st.sections| ==> after.sections[s] != st.sections[s]
    ensures AlignFromProgram(after, s)
  {
    if item.Emit? {
      assert after.records[|st.records|].action == item.action;
    }
  }

  lemma {:induction false} ScanAligns(items: seq<Item>, k: nat, maxOutput: nat, s: nat)
    requires k <= |items| && ScanTo(items, k, maxOutput).Success?
    requires s < |ScanTo(items, k, maxOutput).value.sections|
    ensures AlignFromProgram(ScanTo(items, k, maxOutput).value, s)
  {
    hide Step, AlignFromProgram;
    if k > 0 {
      var before := ScanTo(items, k - 1, maxOutput).value;
      if s < |before.sections| {
        ScanAligns(items, k - 1, maxOutput, s);
      }
      StepAligns(before, items[k - 1], k - 1, maxOutput, ScanTo(items, k, maxOutput).value, s);
    } else {
      FirstAlign();
    }
  }

  lemma FirstAlign()
    ensures AlignFromProgram(START, 0)
  {
  }
}
