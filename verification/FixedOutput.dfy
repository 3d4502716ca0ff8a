/** What a finished program of the fixed-width assembler promises about each of its
    statements: which bytes and which relocations stand at its place. */
module FixedOutput {
  import opened Bits
  import opened Wrappers
  import opened AsmSections
  import opened FixedFields
  import opened FixedScan
  import opened FixedEmit
  import opened FixedAssembler

  lemma {:induction false} ItemBytesIs(width: nat, count: nat)
    ensures ItemBytes(width, count) == count * width
  {
    if count > 0 {
      ItemBytesIs(width, count - 1);
    }
  }

  /** Some bytes stand at a position. */
  predicate StandsAt(data: seq<Byte>, at: nat, bytes: seq<Byte>) {
    at + |bytes| <= |data| && data[at..at + |bytes|] == bytes
  }

  lemma StandsInside(data: seq<Byte>, at: nat, outer: seq<Byte>, inner: nat, bytes: seq<Byte>)
    requires StandsAt(data, at, outer) && StandsAt(outer, inner, bytes)
    ensures StandsAt(data, at + inner, bytes)
  {
    var slice := data[at + inner..at + inner + |bytes|];
    forall k | 0 <= k < |bytes| ensures slice[k] == bytes[k] {
      assert bytes[k] == outer[inner + k] == data[at + inner + k];
    }
    assert slice == bytes;
  }

  lemma StandsBefore(a: seq<Byte>, b: seq<Byte>, at: nat, bytes: seq<Byte>)
    requires StandsAt(a, at, bytes)
    ensures StandsAt(a + b, at, bytes)
  {
    assert (a + b)[at..at + |bytes|] == a[at..at + |bytes|];
  }

  /** Value `k` of a data directive stands behind `k` values of the same width. */
  lemma {:induction false} ValueStands(
    symbols: map<Name, Symbol>, width: DataWidth, values: seq<Expression>, n: nat, at: nat, k: nat)
    requires k < n <= |values| && DataCode(symbols, width, values, n, at).Success?
    ensures var all := DataCode(symbols, width, values, n, at).value;
      var one := ValueCode(symbols, width, values[k], at + ItemBytes(width, k));
      && one.Success?
      && StandsAt(all.bytes, ItemBytes(width, k), one.value.bytes)
      && (forall r | r in one.value.relocs :: r in all.relocs)
  {
    hide ValueCode, ItemBytes;
    var all := DataCode(symbols, width, values, n, at).value;
    var before := DataCode(symbols, width, values, n - 1, at).value;
    if k < n - 1 {
      ValueStands(symbols, width, values, n - 1, at, k);
      var one := ValueCode(symbols, width, values[k], at + ItemBytes(width, k)).value;
      StandsBefore(before.bytes, ValueCode(symbols, width, values[n - 1], at + |before.bytes|).value.bytes,
        ItemBytes(width, k), one.bytes);
    }
  }

  /** Value `k` of a directive at `at`, in finished data: a number is there in two's
      complement, a symbol as zero bytes under a relocation of its width. */
  ghost predicate ValueOut(section: Section, symbols: map<Name, Symbol>, width: DataWidth, value: Expression, at: nat) {
    && at + width <= |section.data|
    && match value
       case Number(n) =>
         && -(Pow2(8 * width - 1) as int) <= n < Pow2(8 * width)
         && FromLittleEndian(section.data[at..at + width]) == ToWord(n, 8 * width)
       case SymbolPlus(name, addend) =>
         && name in symbols
         && (forall p | at <= p < at + width :: section.data[p] == 0)
         && (width == 4 || width == 8)
         && Reloc(at, name, addend, if width == 4 then Absolute32 else Absolute64) in section.relocs
  }

  lemma ValueCodeOut(section: Section, symbols: map<Name, Symbol>, width: DataWidth, value: Expression, at: nat, code: Code)
    requires ValueCode(symbols, width, value, at) == Success(code)
    requires StandsAt(section.data, at, code.bytes)
    requires forall r | r in code.relocs :: r in section.relocs
    ensures ValueOut(section, symbols, width, value, at)
  {
    hide Pow2, LittleEndian, FromLittleEndian;
    assert section.data[at..at + width] == code.bytes;
    match value
    case Number(n) => NumberDecodes(symbols, width, n, at);
    case SymbolPlus(name, addend) =>
      SymbolDataRelocated(symbols, width, name, addend, at);
      assert code.relocs[0] in code.relocs;
      forall p | at <= p < at + width ensures section.data[p] == 0 {
        assert section.data[p] == code.bytes[p - at];
      }
  }

  /** The displacement that an instruction at `at` of section `s` is encoded with. */
  ghost function OperandOf(symbols: map<Name, Symbol>, s: nat, at: nat, target: Option<Expression>): int {
    match target
    case None => 0
    case Some(Number(n)) => n
    case Some(SymbolPlus(name, addend)) =>
      if name in symbols && symbols[name].section == Some(s) then symbols[name].offset + addend - at else 0
  }

  /** An instruction at `at`, in finished data: its word, and a relocation if it
      branches to a symbol that is not in its section. */
  ghost predicate InstructionOut(
    isa: Isa, section: Section, symbols: map<Name, Symbol>, s: nat, at: nat, instruction: Instruction)
  {
    && at % 4 == 0 && at + 4 <= |section.data|
    && isa.encode(instruction, OperandOf(symbols, s, at, instruction.target))
       == Some(FromLittleEndian(section.data[at..at + 4]))
    && (instruction.target.Some? && instruction.target.value.SymbolPlus? ==>
         var name := instruction.target.value.name;
         && name in symbols
         && (symbols[name].section != Some(s) ==>
              Reloc(at, name, instruction.target.value.addend, TargetSpecific(isa.relocCode(instruction)))
              in section.relocs))
  }

  lemma InstructionCodeOut(
    isa: Isa, section: Section, symbols: map<Name, Symbol>, s: nat, at: nat, instruction: Instruction, code: Code)
    requires InstructionCode(isa, symbols, s, at, instruction) == Success(code)
    requires at % 4 == 0 && StandsAt(section.data, at, code.bytes)
    requires forall r | r in code.relocs :: r in section.relocs
    ensures InstructionOut(isa, section, symbols, s, at, instruction)
  {
    hide LittleEndian, FromLittleEndian, Pow2;
    Pow2At32();
    var word := isa.encode(instruction, OperandOf(symbols, s, at, instruction.target)).value;
    LittleEndianRoundTrip(word, 4);
    assert code.bytes == LittleEndian(word, 4);
  }

  /** The zero bytes from `from` to `to`. */
  ghost predicate ZeroOut(section: Section, from: nat, to: nat) {
    to <= |section.data| && forall p | from <= p < to :: section.data[p] == 0
  }

  /** Everything that an emitting statement leaves in its finished section. */
  ghost predicate StatementOut(
    isa: Isa, section: Section, symbols: map<Name, Symbol>, s: nat, at: nat, action: Action)
  {
    match action
    case Execute(instruction) => InstructionOut(isa, section, symbols, s, at, instruction)
    case Data(width, values) =>
      forall k: nat | k < |values| :: ValueOut(section, symbols, width, values[k], at + k * width)
    case Zero(size) => ZeroOut(section, at, at + size)
    case Align(alignment) =>
      && alignment > 0
      && exists to: nat ::
           && at <= to < at + alignment && to % alignment == 0
           && ZeroOut(section, at, to)
  }

  lemma StatementCodeOut(isa: Isa, section: Section, symbols: map<Name, Symbol>, r: Record, code: Code)
    requires RecordCode(isa, symbols, r) == Success(code)
    requires StandsAt(section.data, r.offset, code.bytes)
    requires forall q | q in code.relocs :: q in section.relocs
    requires r.action.Execute? ==> r.offset % 4 == 0
    requires r.action.Align? ==> r.action.alignment > 0
    ensures StatementOut(isa, section, symbols, r.section, r.offset, r.action)
  {
    hide ValueOut, InstructionOut, DataCode, InstructionCode, ValueCode, ItemBytes;
    match r.action
    case Execute(instruction) =>
      InstructionCodeOut(isa, section, symbols, r.section, r.offset, instruction, code);
    case Data(width, values) =>
      forall k: nat | k < |values| ensures ValueOut(section, symbols, width, values[k], r.offset + k * width) {
        ItemBytesIs(width, k);
        ValueStands(symbols, width, values, |values|, r.offset, k);
        var one := ValueCode(symbols, width, values[k], r.offset + k * width).value;
        StandsInside(section.data, r.offset, code.bytes, k * width, one.bytes);
        ValueCodeOut(section, symbols, width, values[k], r.offset + k * width, one);
      }
    case Zero(size) =>
      ZerosOut(section, r.offset, size);
    case Align(alignment) =>
      var size := ActionSize(r.action, r.offset);
      AlignReaches(alignment, r.offset);
      ZerosOut(section, r.offset, size);
  }

  lemma ZerosOut(section: Section, at: nat, size: nat)
    requires StandsAt(section.data, at, Zeros(size))
    ensures ZeroOut(section, at, at + size)
  {
    forall p | at <= p < at + size ensures section.data[p] == 0 {
      assert section.data[p] == section.data[at..at + size][p - at];
    }
  }

  lemma ContentHolds(isa: Isa, st: Scan, k: nat)
    requires k < |st.records| && RecordsPlaced(st) && AllEncode(isa, st, |st.records|)
    requires !InBss(st, st.records[k])
    ensures var r := st.records[k];
      var content := Content(isa, st, r.section, |st.records|);
      var code := RecordCode(isa, st.symbols, r);
      && code.Success?
      && StandsAt(content.bytes, r.offset, code.value.bytes)
      && (forall q | q in code.value.relocs :: q in content.relocs)
  {
    hide RecordCode, Placed;
    var r := st.records[k];
    RecordEmitted(isa, st, k);
    var n := k + 1;
    ContentGrows(isa, st, r.section, n, |st.records|);
    var code := RecordCode(isa, st.symbols, r).value;
    var before, after := Content(isa, st, r.section, k), Content(isa, st, r.section, n);
    var content := Content(isa, st, r.section, |st.records|);
    assert after.relocs == before.relocs + code.relocs;
    forall q | q in code.relocs ensures q in content.relocs {
      assert q in after.relocs;
      assert after.relocs == content.relocs[..|after.relocs|];
    }
  }

  /** In every finished program each emitting statement has left in the section
      selected there, at the size reached there, exactly what it says. */
  lemma StatementsOut(
    isa: Isa, items: seq<Item>, passes: nat, maxOutput: nat, out: Output, i: nat)
    requires Assembled(isa, items, passes, maxOutput, Success(out))
    requires i < |items| && items[i].Emit? && ScanTo(items, i, maxOutput).Success?
    ensures var before := ScanTo(items, i, maxOutput).value;
      var s, at := before.selected, before.sizes[before.selected];
      && s < |out.sections|
      && (out.sections[s].kind != Bss ==> StatementOut(isa, out.sections[s], out.symbols, s, at, items[i].action))
  {
    hide Content, ScanTo, SizeBefore, RecordCode, StatementOut, StandsAt, AllEncode;
    ScanKeeps(items, |items|, maxOutput);
    var st := ScanTo(items, |items|, maxOutput).value;
    RecordOf(items, i, maxOutput);
    var k := |ScanTo(items, i, maxOutput).value.records|;
    var r := st.records[k];
    assert Placed(st, k);
    if st.sections[r.section].kind != Bss {
      ContentHolds(isa, st, k);
      StatementCodeOut(isa, out.sections[r.section], st.symbols, r, RecordCode(isa, st.symbols, r).value);
    }
  }

  /** A relocation that a statement at `at` of section `s` asks for. */
  ghost predicate Asks(isa: Isa, symbols: map<Name, Symbol>, s: nat, at: nat, action: Action, r: Reloc) {
    match action
    case Data(width, values) => exists k: nat | k < |values| :: AskedByValue(symbols, width, values[k], at + k * width, r)
    case Execute(instruction) =>
      && instruction.target.Some? && instruction.target.value.SymbolPlus?
      && var name := instruction.target.value.name;
         && name in symbols && symbols[name].section != Some(s)
         && r == Reloc(at, name, instruction.target.value.addend, TargetSpecific(isa.relocCode(instruction)))
    case Zero(_) => false
    case Align(_) => false
  }

  ghost predicate AskedByValue(symbols: map<Name, Symbol>, width: DataWidth, value: Expression, at: nat, r: Reloc) {
    && value.SymbolPlus? && value.name in symbols
    && r == Reloc(at, value.name, value.addend, if width == 4 then Absolute32 else Absolute64)
  }

  lemma {:induction false} ValueAsks(
    symbols: map<Name, Symbol>, width: DataWidth, values: seq<Expression>, n: nat, at: nat, r: Reloc)
    returns (k: nat)
    requires n <= |values| && DataCode(symbols, width, values, n, at).Success?
    requires r in DataCode(symbols, width, values, n, at).value.relocs
    ensures k < n && AskedByValue(symbols, width, values[k], at + k * width, r)
  {
    hide ItemBytes;
    var before := DataCode(symbols, width, values, n - 1, at).value;
    if r in before.relocs {
      k := ValueAsks(symbols, width, values, n - 1, at, r);
    } else {
      k := n - 1;
      ItemBytesIs(width, k);
    }
  }

  lemma RecordAsks(isa: Isa, symbols: map<Name, Symbol>, record: Record, r: Reloc)
    requires RecordCode(isa, symbols, record).Success? && r in RecordCode(isa, symbols, record).value.relocs
    ensures Asks(isa, symbols, record.section, record.offset, record.action, r)
  {
    hide DataCode, AskedByValue, LittleEndian, ItemBytes;
    if record.action.Data? {
      var values := record.action.values;
      var k := ValueAsks(symbols, record.action.width, values, |values|, record.offset, r);
    }
  }

  lemma {:induction false} RelocHasRecord(isa: Isa, st: Scan, s: nat, n: nat, r: Reloc) returns (k: nat)
    requires n <= |st.records| && r in Content(isa, st, s, n).relocs
    ensures k < n && st.records[k].section == s && !InBss(st, st.records[k])
    ensures RecordCode(isa, st.symbols, st.records[k]).Success?
    ensures r in RecordCode(isa, st.symbols, st.records[k]).value.relocs
  {
    hide RecordCode;
    if r in Content(isa, st, s, n - 1).relocs {
      k := RelocHasRecord(isa, st, s, n - 1, r);
    } else {
      k := n - 1;
    }
  }

  /** Every relocation of a finished program is one that a statement asks for. */
  lemma RelocHasStatement(
    isa: Isa, items: seq<Item>, passes: nat, maxOutput: nat, out: Output, s: nat, r: Reloc) returns (i: nat)
    requires Assembled(isa, items, passes, maxOutput, Success(out))
    requires s < |out.sections| && r in out.sections[s].relocs
    ensures i < |items| && items[i].Emit? && ScanTo(items, i, maxOutput).Success?
    ensures var before := ScanTo(items, i, maxOutput).value;
      && before.selected == s
      && Asks(isa, out.symbols, s, before.sizes[s], items[i].action, r)
  {
    hide Content, ScanTo, RecordCode, Asks, AllEncode;
    var st := ScanTo(items, |items|, maxOutput).value;
    var k := RelocHasRecord(isa, st, s, |st.records|, r);
    RecordHasItem(items, |items|, maxOutput, k);
    i := st.records[k].site;
    RecordOf(items, i, maxOutput);
    RecordAsks(isa, st.symbols, st.records[k], r);
  }

  /** What an instruction set and a symbol table can encode. */
  ghost predicate Encodable(isa: Isa, symbols: map<Name, Symbol>, s: nat, at: nat, action: Action) {
    match action
    case Execute(instruction) =>
      && (instruction.target.Some? && instruction.target.value.SymbolPlus? ==>
           instruction.target.value.name in symbols)
      && -0x8000_0000_0000_0000 <= OperandOf(symbols, s, at, instruction.target) <= 0x7fff_ffff_ffff_ffff
      && isa.encode(instruction, OperandOf(symbols, s, at, instruction.target)).Some?
    case Data(width, values) => forall k: nat | k < |values| :: ValueEncodable(symbols, width, values[k])
    case Zero(_) => true
    case Align(_) => true
  }

  ghost predicate ValueEncodable(symbols: map<Name, Symbol>, width: DataWidth, value: Expression) {
    match value
    case Number(n) => -(Pow2(8 * width - 1) as int) <= n < Pow2(8 * width)
    case SymbolPlus(name, _) => name in symbols && (width == 4 || width == 8)
  }

  lemma {:induction false} DataEncodableIff(
    symbols: map<Name, Symbol>, width: DataWidth, values: seq<Expression>, n: nat, at: nat)
    requires n <= |values|
    ensures DataCode(symbols, width, values, n, at).Success? <==>
      forall k: nat | k < n :: ValueEncodable(symbols, width, values[k])
  {
    hide Pow2;
    if n > 0 {
      DataEncodableIff(symbols, width, values, n - 1, at);
    }
  }

  /** Pass two accepts a record exactly when it is encodable. */
  lemma EncodableIff(isa: Isa, symbols: map<Name, Symbol>, r: Record)
    ensures RecordCode(isa, symbols, r).Success? <==> Encodable(isa, symbols, r.section, r.offset, r.action)
  {
    hide DataCode, ValueEncodable, LittleEndian;
    if r.action.Data? {
      DataEncodableIff(symbols, r.action.width, r.action.values, |r.action.values|, r.offset);
    }
  }

  /** Statement `i` is encodable where it stands, or stands in a section without bytes. */
  ghost predicate StatementEncodable(isa: Isa, items: seq<Item>, maxOutput: nat, symbols: map<Name, Symbol>, i: nat)
    requires i < |items| && ScanTo(items, i, maxOutput).Success?
  {
    var before := ScanTo(items, i, maxOutput).value;
    items[i].Emit? && before.sections[before.selected].kind != Bss ==>
      Encodable(isa, symbols, before.selected, before.sizes[before.selected], items[i].action)
  }

  ghost predicate AllEncodable(isa: Isa, items: seq<Item>, maxOutput: nat, symbols: map<Name, Symbol>) {
    forall i: nat | i < |items| ::
      ScanTo(items, i, maxOutput).Success? && StatementEncodable(isa, items, maxOutput, symbols, i)
  }

  lemma {:induction false} KindStays(items: seq<Item>, j: nat, k: nat, maxOutput: nat, s: nat)
    requires j <= k <= |items| && ScanTo(items, k, maxOutput).Success? && ScanTo(items, j, maxOutput).Success?
    requires s < |ScanTo(items, j, maxOutput).value.sections|
    ensures s < |ScanTo(items, k, maxOutput).value.sections|
    ensures ScanTo(items, k, maxOutput).value.sections[s].kind == ScanTo(items, j, maxOutput).value.sections[s].kind
  {
    hide Step;
    if j < k {
      KindStays(items, j, k - 1, maxOutput, s);
      StepKeepsKind(ScanTo(items, k - 1, maxOutput).value, items[k - 1], k - 1, maxOutput, s);
    }
  }

  lemma StepKeepsKind(st: Scan, item: Item, site: nat, maxOutput: nat, s: nat)
    requires st.Sound() && s < |st.sections| && Step(st, item, site, maxOutput).Success?
    ensures s < |Step(st, item, site, maxOutput).value.sections|
    ensures Step(st, item, site, maxOutput).value.sections[s].kind == st.sections[s].kind
  {
    if item.Declare? {
      DeclareChangesNames(st, item.names, |item.names|, item.isExtern);
    }
  }

  /** Assembling succeeds exactly when there is a pass to make, the scan accepts every
      statement, every global has a symbol, and every statement is encodable. */
  lemma AssemblesIff(isa: Isa, items: seq<Item>, passes: nat, maxOutput: nat, r: Result<Output, FixedError>)
    requires Assembled(isa, items, passes, maxOutput, r)
    ensures r.Success? <==>
      && passes > 0
      && ScanTo(items, |items|, maxOutput).Success?
      && var st := ScanTo(items, |items|, maxOutput).value;
         && (forall name | name in st.globals :: name in st.symbols)
         && AllEncodable(isa, items, maxOutput, st.symbols)
  {
    hide ScanTo, RecordCode, AllEncodable, AllEncode, Encodes, Content;
    if ScanTo(items, |items|, maxOutput).Success? {
      ScanKeeps(items, |items|, maxOutput);
      var st := ScanTo(items, |items|, maxOutput).value;
      AllEncodeIff(isa, items, maxOutput, st);
    }
  }

  lemma StatementIffRecord(isa: Isa, items: seq<Item>, maxOutput: nat, st: Scan, i: nat) returns (k: nat)
    requires ScanTo(items, |items|, maxOutput) == Success(st) && i < |items| && items[i].Emit?
    ensures ScanTo(items, i, maxOutput).Success?
    ensures k == |ScanTo(items, i, maxOutput).value.records| < |st.records|
    ensures Encodes(isa, st, k) <==> StatementEncodable(isa, items, maxOutput, st.symbols, i)
  {
    hide ScanTo, RecordCode, Encodable;
    RecordOf(items, i, maxOutput);
    var before := ScanTo(items, i, maxOutput).value;
    k := |before.records|;
    KindStays(items, i, |items|, maxOutput, before.selected);
    EncodableIff(isa, st.symbols, st.records[k]);
  }

  lemma NotEmittingEncodable(isa: Isa, items: seq<Item>, maxOutput: nat, symbols: map<Name, Symbol>, i: nat)
    requires i < |items| && ScanTo(items, i, maxOutput).Success?
    ensures !items[i].Emit? ==> StatementEncodable(isa, items, maxOutput, symbols, i)
  {
  }

  lemma AllEncodeIff(isa: Isa, items: seq<Item>, maxOutput: nat, st: Scan)
    requires ScanTo(items, |items|, maxOutput) == Success(st)
    ensures AllEncode(isa, st, |st.records|) <==> AllEncodable(isa, items, maxOutput, st.symbols)
  {
    hide ScanTo, Encodes, StatementEncodable;
    forall i: nat | i < |items|
      ensures ScanTo(items, i, maxOutput).Success?
      ensures AllEncode(isa, st, |st.records|) ==> StatementEncodable(isa, items, maxOutput, st.symbols, i)
    {
      ScanPrefix(items, i, |items|, maxOutput);
      NotEmittingEncodable(isa, items, maxOutput, st.symbols, i);
      if items[i].Emit? {
        var k := StatementIffRecord(isa, items, maxOutput, st, i);
      }
    }
    if AllEncodable(isa, items, maxOutput, st.symbols) {
      forall k: nat | k < |st.records| ensures Encodes(isa, st, k) {
        RecordHasItem(items, |items|, maxOutput, k);
        var i := st.records[k].site;
        assert StatementEncodable(isa, items, maxOutput, st.symbols, i);
        var same := StatementIffRecord(isa, items, maxOutput, st, i);
      }
    }
  }
}
