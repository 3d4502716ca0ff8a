/** The fixed-width assembler as the program runs it: pass one fills the symbol
    table and the records, pass two appends to the sections. */
module FixedAssembler {
  import opened Bits
  import opened Wrappers
  import opened IrTypes
  import opened AsmSections
  import opened FixedFields
  import opened FixedScan
  import opened FixedEmit

  datatype Section = Section(
    name: Name, kind: SectionKind, align: nat, data: seq<Byte>, zeroFill: nat, relocs: seq<Reloc>)

  datatype Output = Output(sections: seq<Section>, symbols: map<Name, Symbol>, globals: set<Name>)

  /** A method reports exactly the failure of its specification, and otherwise
      leaves exactly the specified state. */
  ghost predicate Reports(error: Option<ErrorKind>, spec: Result<Scan, ErrorKind>, now: Scan) {
    match spec
    case Failure(kind) => error == Some(kind)
    case Success(st) => error == None && now == st
  }

  class Scanner {
    var sections: seq<SectionInfo>
    var sizes: seq<nat>
    var selected: nat
    var symbols: map<Name, Symbol>
    var globals: set<Name>
    var records: seq<Record>
    var materialized: nat

    function Value(): Scan
      reads this
    {
      Scan(sections, sizes, selected, symbols, globals, records, materialized)
    }

    constructor ()
      ensures Value() == START
    {
      sections, sizes, selected := [SectionInfo(".text", Text, 4)], [0], 0;
      symbols, globals, records, materialized := map[], {}, [], 0;
    }

    method Label(name: Name) returns (error: Option<ErrorKind>)
      requires Value().Sound()
      modifies this
      ensures Reports(error, DefineLabel(old(Value()), name), Value())
    {
      if |symbols| >= MAX_NAMES {
        return Some(TooManySymbols);
      }
      if name in symbols {
        return Some(DuplicateSymbol(name));
      }
      symbols := symbols[name := Symbol(Some(selected), sizes[selected])];
      return None;
    }

    method Select(name: Name) returns (error: Option<ErrorKind>)
      requires Value().Sound()
      modifies this
      ensures Reports(error, SelectSection(old(Value()), name), Value())
    {
      var index := FirstIndex(Names(sections), name);
      if index == |sections| {
        if index >= MAX_SECTIONS {
          return Some(TooManySections);
        }
        var kind := DefaultKind(name);
        sections := sections + [SectionInfo(name, kind, if kind == Text then 4 else 1)];
        sizes := sizes + [0];
      }
      selected := index;
      return None;
    }

    method DeclareOne(name: Name, isExtern: bool) returns (error: Option<ErrorKind>)
      requires Value().Sound()
      modifies this
      ensures Reports(error, DeclareName(old(Value()), name, isExtern), Value())
    {
      if |globals| >= MAX_NAMES {
        return Some(TooManyGlobals);
      }
      globals := globals + {name};
      if isExtern {
        if name in symbols {
          if symbols[name].section.Some? {
            return Some(AlreadyDefined(name));
          }
        } else {
          if |symbols| >= MAX_NAMES {
            return Some(TooManySymbols);
          }
          symbols := symbols[name := Symbol(None, 0)];
        }
      }
      return None;
    }

    method Declare(names: seq<Name>, isExtern: bool) returns (error: Option<ErrorKind>)
      requires Value().Sound()
      modifies this
      ensures Reports(error,
        if names == [] then Failure(NoNames) else DeclareNames(old(Value()), names, |names|, isExtern), Value())
    {
      hide DeclareName;
      if names == [] {
        return Some(NoNames);
      }
      for i := 0 to |names|
        invariant DeclareNames(old(Value()), names, i, isExtern) == Success(Value())
      {
        error := DeclareOne(names[i], isExtern);
        if error.Some? {
          DeclareSticks(old(Value()), names, i + 1, |names|, isExtern);
          return;
        }
      }
      return None;
    }

    method Append(action: Action, site: nat, maxOutput: nat) returns (error: Option<ErrorKind>)
      requires Value().Sound()
      modifies this
      ensures Reports(error, Place(old(Value()), action, site, maxOutput), Value())
    {
      var refused := ActionError(Value(), action);
      if refused.Some? {
        return refused;
      }
      if action.Align? && action.alignment > sections[selected].align {
        sections := sections[selected := sections[selected].(align := action.alignment)];
      }
      var offset := sizes[selected];
      var size := ActionSize(action, offset);
      if size >= WORD_64 || offset + size >= WORD_64 {
        return Some(SizeOverflow);
      }
      sizes := sizes[selected := offset + size];
      if sections[selected].kind != Bss {
        var limit := if maxOutput <= MAX_OUTPUT then maxOutput else MAX_OUTPUT;
        if materialized + size > limit {
          return Some(OutputLimit);
        }
        materialized := materialized + size;
      }
      if |records| >= MAX_RECORDS {
        return Some(TooManyRecords);
      }
      records := records + [Record(selected, offset, action, site)];
      return None;
    }

    method Item(item: Item, site: nat, maxOutput: nat) returns (error: Option<ErrorKind>)
      requires Value().Sound()
      modifies this
      ensures Reports(error, Step(old(Value()), item, site, maxOutput), Value())
    {
      match item
      case Label(name) => error := Label(name);
      case Select(section) => error := Select(section);
      case Declare(names, isExtern) => error := Declare(names, isExtern);
      case Emit(action) => error := Append(action, site, maxOutput);
    }
  }

  lemma {:induction false} DeclareSticks(st: Scan, names: seq<Name>, k: nat, n: nat, isExtern: bool)
    requires st.Sound() && k <= n <= |names| && DeclareNames(st, names, k, isExtern).Failure?
    ensures DeclareNames(st, names, n, isExtern) == DeclareNames(st, names, k, isExtern)
  {
    hide DeclareName;
    if k < n {
      DeclareSticks(st, names, k, n - 1, isExtern);
    }
  }

  /** Pass one, stopping at the first error. */
  method ScanItems(items: seq<Item>, scanner: Scanner, maxOutput: nat) returns (error: Option<FixedError>)
    requires scanner.Value() == START
    modifies scanner
    ensures match ScanTo(items, |items|, maxOutput)
            case Failure(e) => error == Some(e)
            case Success(st) => error == None && scanner.Value() == st
  {
    hide Step;
    for i := 0 to |items|
      invariant ScanTo(items, i, maxOutput) == Success(scanner.Value())
    {
      var failure := scanner.Item(items[i], i, maxOutput);
      if failure.Some? {
        ScanPrefix(items, i + 1, |items|, maxOutput);
        return Some(At(failure.value, i));
      }
    }
    return None;
  }

  lemma UpdateNothing<T>(all: seq<seq<T>>, s: nat)
    requires s < |all|
    ensures all[s := all[s] + []] == all
  {
    assert all[s] + [] == all[s];
  }

  lemma UpdateTwice<T>(all: seq<seq<T>>, s: nat, a: seq<T>, b: seq<T>)
    requires s < |all|
    ensures var once := all[s := all[s] + a];
      once[s := once[s] + b] == all[s := all[s] + (a + b)]
  {
    assert all[s] + a + b == all[s] + (a + b);
  }

  /** The growing sections of pass two. */
  class Emitter {
    const isa: Isa
    const namespace: map<Name, Symbol>
    var data: seq<seq<Byte>>
    var relocs: seq<seq<Reloc>>

    predicate Sound()
      reads this
    {
      |data| == |relocs|
    }

    constructor (isa: Isa, symbols: map<Name, Symbol>, count: nat)
      ensures this.isa == isa && namespace == symbols
      ensures data == seq(count, _ => []) && relocs == seq(count, _ => [])
    {
      this.isa, namespace := isa, symbols;
      data, relocs := seq(count, _ => []), seq(count, _ => []);
    }

    /** Section `s` grows by the code, and nothing else changes. */
    twostate predicate Grown(s: nat, code: Code)
      reads this
    {
      && s < |old(data)| && old(|data| == |relocs|)
      && data == old(data)[s := old(data)[s] + code.bytes]
      && relocs == old(relocs)[s := old(relocs)[s] + code.relocs]
    }

    method Extend(s: nat, code: Code)
      requires Sound() && s < |data|
      modifies this
      ensures Grown(s, code)
    {
      data := data[s := data[s] + code.bytes];
      relocs := relocs[s := relocs[s] + code.relocs];
    }

    method Execute(r: Record, instruction: Instruction) returns (error: Option<ErrorKind>)
      requires Sound() && r.section < |data| && r.action == FixedScan.Execute(instruction)
      modifies this
      ensures match RecordCode(isa, namespace, r)
              case Failure(e) => error == Some(e)
              case Success(code) => error == None && Grown(r.section, code)
    {
      var code := InstructionCode(isa, namespace, r.section, r.offset, instruction);
      if code.Failure? {
        return Some(code.error);
      }
      Extend(r.section, code.value);
      return None;
    }

    method Values(s: nat, width: DataWidth, values: seq<Expression>, at: nat) returns (error: Option<ErrorKind>)
      requires Sound() && s < |data| && |data[s]| == at
      modifies this
      ensures match DataCode(namespace, width, values, |values|, at)
              case Failure(e) => error == Some(e)
              case Success(code) => error == None && Grown(s, code)
    {
      hide ValueCode;
      ghost var data0, relocs0 := data, relocs;
      UpdateNothing(data, s);
      UpdateNothing(relocs, s);
      for i := 0 to |values|
        invariant DataCode(namespace, width, values, i, at).Success?
        invariant data == data0[s := data0[s] + DataCode(namespace, width, values, i, at).value.bytes]
        invariant relocs == relocs0[s := relocs0[s] + DataCode(namespace, width, values, i, at).value.relocs]
      {
        ghost var sofar := DataCode(namespace, width, values, i, at).value;
        var code := ValueCode(namespace, width, values[i], |data[s]|);
        if code.Failure? {
          DataSticks(namespace, width, values, i + 1, |values|, at);
          return Some(code.error);
        }
        UpdateTwice(data0, s, sofar.bytes, code.value.bytes);
        UpdateTwice(relocs0, s, sofar.relocs, code.value.relocs);
        data := data[s := data[s] + code.value.bytes];
        relocs := relocs[s := relocs[s] + code.value.relocs];
      }
      return None;
    }

    method Record(r: Record) returns (error: Option<ErrorKind>)
      requires Sound() && r.section < |data| && |data[r.section]| == r.offset
      modifies this
      ensures match RecordCode(isa, namespace, r)
              case Failure(e) => error == Some(e)
              case Success(code) => error == None && Grown(r.section, code)
    {
      match r.action
      case Execute(instruction) => error := Execute(r, instruction);
      case Data(width, values) => error := Values(r.section, width, values, r.offset);
      case Zero(size) =>
        Extend(r.section, Code(Zeros(size), []));
        error := None;
      case Align(_) =>
        Extend(r.section, Code(Zeros(ActionSize(r.action, r.offset)), []));
        error := None;
    }
  }

  lemma {:induction false} DataSticks(
    symbols: map<Name, Symbol>, width: DataWidth, values: seq<Expression>, k: nat, n: nat, at: nat)
    requires k <= n <= |values| && DataCode(symbols, width, values, k, at).Failure?
    ensures DataCode(symbols, width, values, n, at) == DataCode(symbols, width, values, k, at)
  {
    hide ValueCode;
    if k < n {
      DataSticks(symbols, width, values, k, n - 1, at);
    }
  }

  /** The sections hold what the first `k` records put into them. */
  ghost predicate Holds(isa: Isa, st: Scan, data: seq<seq<Byte>>, relocs: seq<seq<Reloc>>, k: nat)
    requires k <= |st.records|
  {
    && |data| == |relocs| == |st.sections|
    && forall s: nat | s < |st.sections| :: Code(data[s], relocs[s]) == Content(isa, st, s, k)
  }

  lemma HoldsNothing(isa: Isa, st: Scan)
    ensures Holds(isa, st, seq(|st.sections|, _ => []), seq(|st.sections|, _ => []), 0)
  {
  }

  lemma HoldsNext(isa: Isa, st: Scan, data: seq<seq<Byte>>, relocs: seq<seq<Reloc>>, k: nat, code: Code)
    requires k < |st.records| && Holds(isa, st, data, relocs, k) && RecordsPlaced(st)
    requires !InBss(st, st.records[k]) && RecordCode(isa, st.symbols, st.records[k]) == Success(code)
    requires st.records[k].section < |st.sections|
    ensures var s := st.records[k].section;
      Holds(isa, st, data[s := data[s] + code.bytes], relocs[s := relocs[s] + code.relocs], k + 1)
  {
    hide RecordCode;
    forall s: nat | s < |st.sections|
      ensures Content(isa, st, s, k + 1) ==
        if s == st.records[k].section then Code(data[s] + code.bytes, relocs[s] + code.relocs)
        else Code(data[s], relocs[s])
    {
      assert Code(data[s], relocs[s]) == Content(isa, st, s, k);
    }
  }

  lemma HoldsSkip(isa: Isa, st: Scan, data: seq<seq<Byte>>, relocs: seq<seq<Reloc>>, k: nat)
    requires k < |st.records| && Holds(isa, st, data, relocs, k) && InBss(st, st.records[k])
    ensures Holds(isa, st, data, relocs, k + 1)
  {
    hide RecordCode;
    forall s: nat | s < |st.sections| ensures Content(isa, st, s, k + 1) == Content(isa, st, s, k) {
    }
  }

  /** Pass two, stopping at the first record that does not encode. */
  method EmitRecords(st: Scan, emitter: Emitter) returns (error: Option<FixedError>)
    requires RecordsPlaced(st) && emitter.namespace == st.symbols
    requires emitter.data == seq(|st.sections|, _ => []) && emitter.relocs == seq(|st.sections|, _ => [])
    modifies emitter
    ensures error.None? ==>
      && AllEncode(emitter.isa, st, |st.records|)
      && Holds(emitter.isa, st, emitter.data, emitter.relocs, |st.records|)
    ensures error.Some? ==> exists k: nat | k < |st.records| ::
      && AllEncode(emitter.isa, st, k) && !Encodes(emitter.isa, st, k)
      && error == Some(At(RecordCode(emitter.isa, st.symbols, st.records[k]).error, st.records[k].site))
  {
    hide RecordCode, Content;
    HoldsNothing(emitter.isa, st);
    for k := 0 to |st.records|
      invariant AllEncode(emitter.isa, st, k)
      invariant Holds(emitter.isa, st, emitter.data, emitter.relocs, k)
    {
      var r := st.records[k];
      assert Placed(st, k);
      if st.sections[r.section].kind == Bss {
        HoldsSkip(emitter.isa, st, emitter.data, emitter.relocs, k);
        continue;
      }
      EmittedAtOffset(emitter.isa, st, k);
      ghost var data, relocs := emitter.data, emitter.relocs;
      var failure := emitter.Record(r);
      if failure.Some? {
        assert !Encodes(emitter.isa, st, k);
        return Some(At(failure.value, r.site));
      }
      HoldsNext(emitter.isa, st, data, relocs, k, RecordCode(emitter.isa, st.symbols, r).value);
    }
    return None;
  }

  /** The finished section `s`. */
  ghost function Finished(isa: Isa, st: Scan, s: nat): Section
    requires s < |st.sections| == |st.sizes|
  {
    var info := st.sections[s];
    var content := Content(isa, st, s, |st.records|);
    Section(info.name, info.kind, info.align, content.bytes, if info.kind == Bss then st.sizes[s] else 0, content.relocs)
  }

  /** The result of assembling: the first error in source order, or the sections
      with the content of all their records. */
  ghost predicate Assembled(
    isa: Isa, items: seq<Item>, passes: nat, maxOutput: nat, r: Result<Output, FixedError>)
  {
    if passes == 0 then r == Failure(NoPasses)
    else
      match ScanTo(items, |items|, maxOutput)
      case Failure(e) => r == Failure(e)
      case Success(st) =>
        ScanKeeps(items, |items|, maxOutput);
        if exists name :: name in st.globals && name !in st.symbols then
          r.Failure? && r.error.MissingGlobal? && r.error.name in st.globals && r.error.name !in st.symbols
        else if AllEncode(isa, st, |st.records|) then
          && r.Success?
          && r.value.symbols == st.symbols && r.value.globals == st.globals
          && |r.value.sections| == |st.sections|
          && forall s: nat | s < |st.sections| :: r.value.sections[s] == Finished(isa, st, s)
        else
          exists k: nat | k < |st.records| ::
            && AllEncode(isa, st, k) && !Encodes(isa, st, k)
            && r == Failure(At(RecordCode(isa, st.symbols, st.records[k]).error, st.records[k].site))
  }

  method Assemble(isa: Isa, items: seq<Item>, passes: nat, maxOutput: nat) returns (r: Result<Output, FixedError>)
    ensures Assembled(isa, items, passes, maxOutput, r)
  {
    hide RecordCode, ScanTo, Placed, SizesMatch, OutputBounded, Content;
    if passes == 0 {
      return Failure(NoPasses);
    }
    var scanner := new Scanner();
    var error := ScanItems(items, scanner, maxOutput);
    if error.Some? {
      return Failure(error.value);
    }
    ghost var st := scanner.Value();
    ScanKeeps(items, |items|, maxOutput);
    var missing := set name | name in scanner.globals && name !in scanner.symbols;
    if missing != {} {
      var name :| name in missing;
      return Failure(MissingGlobal(name));
    }
    assert forall name | name in st.globals :: name in st.symbols by {
      assert forall name | name in st.globals && name !in st.symbols :: name in missing;
    }
    var emitter := new Emitter(isa, scanner.symbols, |scanner.sections|);
    error := EmitRecords(scanner.Value(), emitter);
    if error.Some? {
      return Failure(error.value);
    }
    var sections := [];
    for s := 0 to |scanner.sections|
      invariant scanner.Value() == st && Holds(isa, st, emitter.data, emitter.relocs, |st.records|)
      invariant |sections| == s
      invariant forall q: nat | q < s :: sections[q] == Finished(isa, st, q)
    {
      var info := scanner.sections[s];
      var zeroFill := if info.kind == Bss then scanner.sizes[s] else 0;
      assert Code(emitter.data[s], emitter.relocs[s]) == Content(isa, st, s, |st.records|);
      sections := sections + [Section(info.name, info.kind, info.align, emitter.data[s], zeroFill, emitter.relocs[s])];
    }
    return Success(Output(sections, scanner.symbols, scanner.globals));
  }

  /** The number of bytes in the first `n` sections of an output. */
  function TotalBytes(sections: seq<Section>, n: nat): nat
    requires n <= |sections|
  {
    if n == 0 then 0 else TotalBytes(sections, n - 1) + |sections[n - 1].data|
  }

  lemma {:induction false} BssIsEmpty(isa: Isa, st: Scan, s: nat, k: nat)
    requires k <= |st.records| && s < |st.sections| && st.sections[s].kind == Bss
    ensures Content(isa, st, s, k) == Code([], [])
  {
    if k > 0 {
      BssIsEmpty(isa, st, s, k - 1);
    }
  }

  lemma {:induction false} TotalIsMaterialized(isa: Isa, st: Scan, sections: seq<Section>, n: nat)
    requires n <= |sections| == |st.sections| == |st.sizes|
    requires SizesMatch(st) && RecordsPlaced(st) && AllEncode(isa, st, |st.records|)
    requires forall s: nat | s < |sections| :: sections[s] == Finished(isa, st, s)
    ensures TotalBytes(sections, n) == Materialized(st.sections, st.sizes, n)
  {
    hide Content, SizeBefore, Placed, Encodes;
    if n > 0 {
      TotalIsMaterialized(isa, st, sections, n - 1);
      if st.sections[n - 1].kind == Bss {
        BssIsEmpty(isa, st, n - 1, |st.records|);
      } else {
        EmittedLength(isa, st, n - 1, |st.records|);
      }
    }
  }

  /** What a finished program promises about sections: they are those of pass one, each
      with its name, kind and alignment; a section has exactly the size that pass one assigned, as bytes or as a zero reservation, its relocation
      fields are inside it, in order and disjoint, and the output keeps the limit. */
  lemma AssembledLayout(isa: Isa, items: seq<Item>, passes: nat, maxOutput: nat, out: Output)
    requires Assembled(isa, items, passes, maxOutput, Success(out))
    ensures ScanTo(items, |items|, maxOutput).Success?
    ensures var st := ScanTo(items, |items|, maxOutput).value;
      && |out.sections| == |st.sizes|
      && |out.sections| == |st.sections|
      && (forall s: nat | s < |out.sections| ::
           && out.sections[s].name == st.sections[s].name && out.sections[s].kind == st.sections[s].kind
           && out.sections[s].align == st.sections[s].align
           && |out.sections[s].data| == (if out.sections[s].kind == Bss then 0 else st.sizes[s])
           && out.sections[s].zeroFill == (if out.sections[s].kind == Bss then st.sizes[s] else 0)
           && InOrder(out.sections[s].relocs, 0, |out.sections[s].data|))
      && TotalBytes(out.sections, |out.sections|) == st.materialized <= maxOutput
  {
    hide Content, ScanTo, SizeBefore, Placed, Encodes, InOrder, TotalBytes, Materialized;
    ScanKeeps(items, |items|, maxOutput);
    var st := ScanTo(items, |items|, maxOutput).value;
    TotalIsMaterialized(isa, st, out.sections, |out.sections|);
    forall s: nat | s < |out.sections|
      ensures |out.sections[s].data| == if out.sections[s].kind == Bss then 0 else st.sizes[s]
      ensures InOrder(out.sections[s].relocs, 0, |out.sections[s].data|)
    {
      if st.sections[s].kind == Bss {
        BssIsEmpty(isa, st, s, |st.records|);
        NoneInOrder();
      } else {
        EmittedLength(isa, st, s, |st.records|);
        RelocationsDisjoint(isa, st, s, |st.records|);
      }
    }
  }

  lemma NoneInOrder()
    ensures InOrder([], 0, 0)
  {
  }

  /** What a finished program promises about one instruction statement whose operand
      is a label of the same section: the word at its offset leads to the label, for
      every instruction set that stores the displacement in a field of the word. */
  lemma AssembledBranchReaches(
    isa: Isa, items: seq<Item>, passes: nat, maxOutput: nat, out: Output,
    i: nat, name: Name, addend: int, bits: int, alignment: int, fieldOf: Word32 -> nat)
    requires Assembled(isa, items, passes, maxOutput, Success(out))
    requires i < |items| && items[i].Emit? && items[i].action.Execute?
    requires items[i].action.instruction.target == Some(SymbolPlus(name, addend))
    requires StoresDisplacement(isa, items[i].action.instruction, bits, alignment, fieldOf)
    requires ScanTo(items, i, maxOutput).Success?
    requires name in out.symbols && out.symbols[name].section == Some(ScanTo(items, i, maxOutput).value.selected)
    ensures var before := ScanTo(items, i, maxOutput).value;
      var at := before.sizes[before.selected];
      && bits > 0 && at % 4 == 0
      && before.selected < |out.sections| && at + 4 <= |out.sections[before.selected].data|
      && var word := FromLittleEndian(out.sections[before.selected].data[at..at + 4]);
         && word < 0x1_0000_0000
         && at + alignment * FromWord(fieldOf(word), bits) == out.symbols[name].offset + addend
  {
    hide Content, ScanTo, SizeBefore, FromLittleEndian, FromWord, StoresDisplacement, RecordCode;
    ScanKeeps(items, |items|, maxOutput);
    var st := ScanTo(items, |items|, maxOutput).value;
    RecordOf(items, i, maxOutput);
    var k := |ScanTo(items, i, maxOutput).value.records|;
    assert Placed(st, k);
    EmittedBranchReaches(isa, st, k, name, addend, bits, alignment, fieldOf);
  }
}
