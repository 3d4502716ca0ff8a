/**
  The assembler for fixed-width instruction sets, pass two: the bytes and
  relocations of every record, and their agreement with the layout of pass one.
 */
module FixedEmit {
  import opened Bits
  import opened Wrappers
  import opened IrTypes
  import opened AsmSections
  import opened ConstArith
  import opened ConstRefine
  import opened FixedFields
  import opened FixedScan

  datatype RelocKind = Absolute32 | Absolute64 | TargetSpecific(code: nat)

  datatype Reloc = Reloc(offset: nat, symbol: Name, addend: int, kind: RelocKind)

  datatype Code = Code(bytes: seq<Byte>, relocs: seq<Reloc>)

  /** An instruction set: the word for an instruction whose branch operand, if
      any, has been turned into a displacement, or `None` for an encoding error. */
  datatype Isa = Isa(
    relocCode: Instruction -> nat,
    encode: (Instruction, int) -> Option<Word32>)

  function RelocWidth(kind: RelocKind): nat {
    if kind.Absolute64? then 8 else 4
  }

  /** `pc_relative`: the displacement of a branch operand, or a relocation. */
  function PcRelative(
    symbols: map<Name, Symbol>, section: nat, offset: nat, target: Expression, code: nat)
    : Result<(int, seq<Reloc>), ErrorKind>
  {
    match target
    case Number(n) => if I64_MIN <= n <= I64_MAX then Success((n, [])) else Failure(ValueRange)
    case SymbolPlus(name, addend) =>
      if name !in symbols then Failure(UndefinedSymbol(name))
      else if symbols[name].section == Some(section) then
        var distance := symbols[name].offset + addend - offset;
        if I64_MIN <= distance <= I64_MAX then Success((distance, [])) else Failure(ValueRange)
      else Success((0, [Reloc(offset, name, addend, TargetSpecific(code))]))
  }

  function InstructionCode(isa: Isa, symbols: map<Name, Symbol>, section: nat, offset: nat, instruction: Instruction)
    : (r: Result<Code, ErrorKind>)
    ensures r.Success? ==> |r.value.bytes| == 4
  {
    var operand := match instruction.target
      case None => Success((0, []))
      case Some(target) => PcRelative(symbols, section, offset, target, isa.relocCode(instruction));
    if operand.Failure? then Failure(operand.error)
    else
      match isa.encode(instruction, operand.value.0)
      case None => Failure(Encoding)
      case Some(word) => Success(Code(LittleEndian(word, 4), operand.value.1))
  }

  function Zeros(n: nat): (bytes: seq<Byte>)
    ensures |bytes| == n
  {
    seq(n, _ => 0)
  }

  /** One value of a data directive, at a section offset. */
  function ValueCode(symbols: map<Name, Symbol>, width: DataWidth, value: Expression, at: nat)
    : (r: Result<Code, ErrorKind>)
    ensures r.Success? ==> |r.value.bytes| == width
  {
    match value
    case Number(n) =>
      if n < -(Pow2(8 * width - 1) as int) || n >= Pow2(8 * width) then Failure(ValueRange)
      else Success(Code(LittleEndian(n % WORD_64, width), []))
    case SymbolPlus(name, addend) =>
      if name !in symbols then Failure(UndefinedSymbol(name))
      else if width != 4 && width != 8 then Failure(SymbolWidth)
      else
        var kind := if width == 4 then Absolute32 else Absolute64;
        Success(Code(Zeros(width), [Reloc(at, name, addend, kind)]))
  }

  /** The first `n` values of a data directive. */
  function DataCode(symbols: map<Name, Symbol>, width: DataWidth, values: seq<Expression>, n: nat, at: nat)
    : (r: Result<Code, ErrorKind>)
    requires n <= |values|
    ensures r.Success? ==> |r.value.bytes| == ItemBytes(width, n)
  {
    if n == 0 then Success(Code([], []))
    else
      var before := DataCode(symbols, width, values, n - 1, at);
      if before.Failure? then before
      else
        var next := ValueCode(symbols, width, values[n - 1], at + |before.value.bytes|);
        if next.Failure? then next
        else Success(Code(before.value.bytes + next.value.bytes, before.value.relocs + next.value.relocs))
  }

  function RecordCode(isa: Isa, symbols: map<Name, Symbol>, r: Record): (code: Result<Code, ErrorKind>)
    ensures code.Success? ==> |code.value.bytes| == ActionSize(r.action, r.offset)
  {
    match r.action
    case Execute(instruction) => InstructionCode(isa, symbols, r.section, r.offset, instruction)
    case Data(width, values) => DataCode(symbols, width, values, |values|, r.offset)
    case Zero(size) => Success(Code(Zeros(size), []))
    case Align(_) => Success(Code(Zeros(ActionSize(r.action, r.offset)), []))
  }

  predicate InBss(st: Scan, r: Record) {
    r.section < |st.sections| && st.sections[r.section].kind == Bss
  }

  /** Record `k` needs no bytes or encodes. */
  predicate Encodes(isa: Isa, st: Scan, k: nat)
    requires k < |st.records|
  {
    InBss(st, st.records[k]) || RecordCode(isa, st.symbols, st.records[k]).Success?
  }

  ghost predicate AllEncode(isa: Isa, st: Scan, k: nat)
    requires k <= |st.records|
  {
    forall j: nat | j < k :: Encodes(isa, st, j)
  }

  /** What the records before `k` put into section `s`. */
  ghost function Content(isa: Isa, st: Scan, s: nat, k: nat): Code
    requires k <= |st.records|
  {
    if k == 0 then Code([], [])
    else
      var before := Content(isa, st, s, k - 1);
      var r := st.records[k - 1];
      if r.section != s || InBss(st, r) then before
      else
        var code := RecordCode(isa, st.symbols, r);
        if code.Failure? then before
        else Code(before.bytes + code.value.bytes, before.relocs + code.value.relocs)
  }

  /** Two-pass agreement: the emitted length is the length that pass one assigned. */
  lemma {:induction false} EmittedLength(isa: Isa, st: Scan, s: nat, k: nat)
    requires k <= |st.records| && RecordsPlaced(st) && AllEncode(isa, st, k)
    requires s < |st.sections| && st.sections[s].kind != Bss
    ensures |Content(isa, st, s, k).bytes| == SizeBefore(st.records, s, k)
  {
    hide RecordCode, ActionSize;
    if k > 0 {
      EmittedLength(isa, st, s, k - 1);
      assert Encodes(isa, st, k - 1);
    }
  }

  /** A record starts exactly at its offset, where its section ends so far. */
  lemma EmittedAtOffset(isa: Isa, st: Scan, k: nat)
    requires k < |st.records| && RecordsPlaced(st) && AllEncode(isa, st, k)
    requires !InBss(st, st.records[k])
    ensures |Content(isa, st, st.records[k].section, k).bytes| == st.records[k].offset
  {
    hide Content, SizeBefore;
    assert Placed(st, k);
    EmittedLength(isa, st, st.records[k].section, k);
  }

  lemma {:induction false} ContentGrows(isa: Isa, st: Scan, s: nat, j: nat, k: nat)
    requires j <= k <= |st.records|
    ensures Content(isa, st, s, j).bytes <= Content(isa, st, s, k).bytes
    ensures Content(isa, st, s, j).relocs <= Content(isa, st, s, k).relocs
  {
    hide RecordCode;
    if j < k {
      ContentGrows(isa, st, s, j, k - 1);
    }
  }

  /** The finished section holds the code of every record at the record's offset. */
  lemma RecordEmitted(isa: Isa, st: Scan, k: nat)
    requires k < |st.records| && RecordsPlaced(st) && AllEncode(isa, st, |st.records|)
    requires !InBss(st, st.records[k])
    ensures var r := st.records[k];
      var code := RecordCode(isa, st.symbols, r);
      var data := Content(isa, st, r.section, |st.records|).bytes;
      && code.Success?
      && r.offset + |code.value.bytes| <= |data|
      && data[r.offset..r.offset + |code.value.bytes|] == code.value.bytes
  {
    hide RecordCode;
    var r := st.records[k];
    assert Encodes(isa, st, k);
    EmittedAtOffset(isa, st, k);
    ContentGrows(isa, st, r.section, k + 1, |st.records|);
    var before := Content(isa, st, r.section, k).bytes;
    assert Content(isa, st, r.section, k + 1).bytes == before + RecordCode(isa, st.symbols, r).value.bytes;
    PrefixSlice(before, RecordCode(isa, st.symbols, r).value.bytes, Content(isa, st, r.section, |st.records|).bytes);
  }

  lemma PrefixSlice(a: seq<Byte>, b: seq<Byte>, all: seq<Byte>)
    requires a + b <= all
    ensures |a| + |b| <= |all| && all[|a|..|a| + |b|] == b
  {
    assert all[|a|..|a| + |b|] == (a + b)[|a|..];
  }

  /** A label's offset is the emitted length of its section where the label stands. */
  lemma LabelIsEmittedLength(isa: Isa, items: seq<Item>, maxOutput: nat, name: Name) returns (i: nat)
    requires ScanTo(items, |items|, maxOutput).Success?
    requires var st := ScanTo(items, |items|, maxOutput).value;
      && name in st.symbols && st.symbols[name].section.Some?
      && RecordsPlaced(st) && AllEncode(isa, st, |st.records|)
    ensures i < |items| && items[i] == Label(name) && ScanTo(items, i, maxOutput).Success?
    ensures var before := ScanTo(items, i, maxOutput).value;
      var st := ScanTo(items, |items|, maxOutput).value;
      && |before.records| <= |st.records| && before.selected < |st.sections|
      && st.symbols[name].section == Some(before.selected)
      && (st.sections[before.selected].kind != Bss ==>
           st.symbols[name].offset == |Content(isa, st, before.selected, |before.records|).bytes|)
  {
    hide Content, SizeBefore, ScanTo, Placed;
    i := LabelOffset(items, maxOutput, name);
    var before := ScanTo(items, i, maxOutput).value;
    var st := ScanTo(items, |items|, maxOutput).value;
    SectionsGrow(items, i, |items|, maxOutput);
    if st.sections[before.selected].kind != Bss {
      EmittedLength(isa, st, before.selected, |before.records|);
    }
  }

  lemma {:induction false} SectionsGrow(items: seq<Item>, j: nat, k: nat, maxOutput: nat)
    requires j <= k <= |items| && ScanTo(items, k, maxOutput).Success?
    ensures ScanTo(items, j, maxOutput).Success?
    ensures |ScanTo(items, j, maxOutput).value.sections| <= |ScanTo(items, k, maxOutput).value.sections|
  {
    hide Step;
    if j < k {
      SectionsGrow(items, j, k - 1, maxOutput);
      StepGrowsSections(ScanTo(items, k - 1, maxOutput).value, items[k - 1], k - 1, maxOutput);
    }
  }

  lemma StepGrowsSections(st: Scan, item: Item, site: nat, maxOutput: nat)
    requires st.Sound() && Step(st, item, site, maxOutput).Success?
    ensures |st.sections| <= |Step(st, item, site, maxOutput).value.sections|
  {
    if item.Declare? {
      DeclareChangesNames(st, item.names, |item.names|, item.isExtern);
    }
  }

  /** Relocation fields lie between two offsets, in order and without overlap. */
  ghost predicate InOrder(relocs: seq<Reloc>, low: nat, high: nat) {
    && (forall x | 0 <= x < |relocs| ::
         low <= relocs[x].offset && relocs[x].offset + RelocWidth(relocs[x].kind) <= high)
    && (forall x, y | 0 <= x < y < |relocs| ::
         relocs[x].offset + RelocWidth(relocs[x].kind) <= relocs[y].offset)
  }

  lemma InOrderAppend(a: seq<Reloc>, b: seq<Reloc>, low: nat, mid: nat, high: nat)
    requires low <= mid <= high && InOrder(a, low, mid) && InOrder(b, mid, high)
    ensures InOrder(a + b, low, high)
  {
  }

  lemma {:induction false} DataRelocsInOrder(
    symbols: map<Name, Symbol>, width: DataWidth, values: seq<Expression>, n: nat, at: nat)
    requires n <= |values| && DataCode(symbols, width, values, n, at).Success?
    ensures InOrder(DataCode(symbols, width, values, n, at).value.relocs, at, at + ItemBytes(width, n))
  {
    hide ValueCode;
    if n > 0 {
      hide InOrder;
      DataRelocsInOrder(symbols, width, values, n - 1, at);
      var before := DataCode(symbols, width, values, n - 1, at).value;
      var next := ValueCode(symbols, width, values[n - 1], at + |before.bytes|).value;
      ValueRelocInOrder(symbols, width, values[n - 1], at + |before.bytes|);
      InOrderAppend(before.relocs, next.relocs, at, at + |before.bytes|, at + |before.bytes| + width);
    }
  }

  lemma ValueRelocInOrder(symbols: map<Name, Symbol>, width: DataWidth, value: Expression, at: nat)
    requires ValueCode(symbols, width, value, at).Success?
    ensures InOrder(ValueCode(symbols, width, value, at).value.relocs, at, at + width)
  {
  }

  lemma RecordRelocsInOrder(isa: Isa, symbols: map<Name, Symbol>, r: Record)
    requires RecordCode(isa, symbols, r).Success?
    ensures InOrder(RecordCode(isa, symbols, r).value.relocs, r.offset, r.offset + ActionSize(r.action, r.offset))
  {
    hide DataCode, LittleEndian, ItemBytes;
    if r.action.Data? {
      DataRelocsInOrder(symbols, r.action.width, r.action.values, |r.action.values|, r.offset);
    }
  }

  /** Relocation fields of a section are inside its data, increasing and disjoint. */
  lemma {:induction false} RelocationsDisjoint(isa: Isa, st: Scan, s: nat, k: nat)
    requires k <= |st.records| && RecordsPlaced(st) && AllEncode(isa, st, k)
    requires s < |st.sections| && st.sections[s].kind != Bss
    ensures InOrder(Content(isa, st, s, k).relocs, 0, |Content(isa, st, s, k).bytes|)
  {
    hide RecordCode, ActionSize, SizeBefore;
    if k > 0 {
      RelocationsDisjoint(isa, st, s, k - 1);
      var r := st.records[k - 1];
      assert Encodes(isa, st, k - 1);
      if r.section == s {
        hide InOrder;
        EmittedAtOffset(isa, st, k - 1);
        RecordRelocsInOrder(isa, st.symbols, r);
        var before := Content(isa, st, s, k - 1);
        var code := RecordCode(isa, st.symbols, r).value;
        InOrderAppend(before.relocs, code.relocs, 0, |before.bytes|, |before.bytes| + |code.bytes|);
      }
    }
  }

  /** The bytes of an accepted number are its two's complement. */
  lemma NumberDecodes(symbols: map<Name, Symbol>, width: DataWidth, n: int, at: nat)
    ensures var r := ValueCode(symbols, width, Number(n), at);
      && (r.Success? <==> -(Pow2(8 * width - 1) as int) <= n < Pow2(8 * width))
      && (r.Success? ==> r.value.relocs == [] && FromLittleEndian(r.value.bytes) == ToWord(n, 8 * width))
  {
    hide Pow2, LittleEndian, FromLittleEndian, Congruent;
    LittleEndianRemainder(n % WORD_64, width);
    Pow2At64();
    Pow2Sum(8 * width, 64 - 8 * width);
    MulAssociative(Pow2(8 * width), Pow2(64 - 8 * width), -(n / WORD_64));
    CongruentBy(n % WORD_64, n, Pow2(8 * width), Pow2(64 - 8 * width) * -(n / WORD_64));
    SameRemainder(n % WORD_64, n, Pow2(8 * width));
  }

  lemma {:induction false} LittleEndianRemainder(word: nat, count: nat)
    ensures FromLittleEndian(LittleEndian(word, count)) == word % Pow2(8 * count)
  {
    if count > 0 {
      hide Pow2;
      LittleEndianRemainder(word / 256, count - 1);
      assert LittleEndian(word, count)[1..] == LittleEndian(word / 256, count - 1);
      EightMoreBits(word, 8 * (count - 1));
    }
  }

  lemma EightMoreBits(word: nat, k: nat)
    ensures word % Pow2(k + 8) == word % 256 + 256 * ((word / 256) % Pow2(k))
  {
    var m := Pow2(k);
    Pow2Sum(8, k);
    assert Pow2(8) == 256;
    hide Pow2;
    var q, r := word / 256 / m, word / 256 % m;
    assert word == 256 * (m * q + r) + word % 256;
    MulAssociative(256, m, q);
    DivModUnique(word, 256 * m, q, 256 * r + word % 256);
  }

  /** A symbol in a data directive must be declared and have 4 or 8 bytes; they are
      zero, and one relocation of that width covers them. */
  lemma SymbolDataRelocated(symbols: map<Name, Symbol>, width: DataWidth, name: Name, addend: int, at: nat)
    ensures var r := ValueCode(symbols, width, SymbolPlus(name, addend), at);
      && (r.Success? <==> name in symbols && (width == 4 || width == 8))
      && (r.Success? ==>
           && (forall b | b in r.value.bytes :: b == 0)
           && |r.value.relocs| == 1 && RelocWidth(r.value.relocs[0].kind) == width
           && r.value.relocs[0].(kind := Absolute32) == Reloc(at, name, addend, Absolute32))
  {
  }

  /** A branch out of its section has no distance of its own: the linker gets one
      relocation, at the instruction. */
  lemma ForeignBranchRelocated(
    symbols: map<Name, Symbol>, section: nat, offset: nat, name: Name, addend: int, code: nat)
    requires name !in symbols || symbols[name].section != Some(section)
    ensures var r := PcRelative(symbols, section, offset, SymbolPlus(name, addend), code);
      if name in symbols then r == Success((0, [Reloc(offset, name, addend, TargetSpecific(code))]))
      else r == Failure(UndefinedSymbol(name))
  {
  }

  /** A branch to a label of its own section is encodable exactly when the distance
      is aligned and in the scaled range, and then its field leads to the label. */
  lemma BranchFieldReaches(
    symbols: map<Name, Symbol>, section: nat, offset: nat, name: Name, addend: int, code: nat, bits: int, alignment: int)
    requires name in symbols && symbols[name].section == Some(section)
    ensures var r := PcRelative(symbols, section, offset, SymbolPlus(name, addend), code);
      var distance := symbols[name].offset + addend - offset;
      && (r.Success? <==> I64_MIN <= distance <= I64_MAX)
      && (r.Success? ==> r.value == (distance, []))
      && (Displacement(distance, bits, alignment).Some? <==>
           && 1 <= bits <= 32 && alignment > 0 && distance % alignment == 0
           && -(alignment * Pow2(bits - 1)) <= distance < alignment * Pow2(bits - 1))
      && (r.Success? && Displacement(r.value.0, bits, alignment).Some? ==>
           var field := Displacement(r.value.0, bits, alignment).value;
           field < Pow2(bits) && offset + alignment * FromWord(field, bits) == symbols[name].offset + addend)
  {
    hide Displacement, FromWord, Pow2;
    DisplacementDecodes(symbols[name].offset + addend - offset, bits, alignment);
  }

  /** An instruction set whose branches carry `displacement` in a field. */
  ghost predicate StoresDisplacement(isa: Isa, instruction: Instruction, bits: int, alignment: int, fieldOf: Word32 -> nat) {
    forall distance: int :: isa.encode(instruction, distance).Some? ==>
      Displacement(distance, bits, alignment) == Some(fieldOf(isa.encode(instruction, distance).value))
  }

  /** In the finished section, the word at a local branch leads to the label. */
  lemma EmittedBranchReaches(
    isa: Isa, st: Scan, k: nat, name: Name, addend: int, bits: int, alignment: int, fieldOf: Word32 -> nat)
    requires k < |st.records| && RecordsPlaced(st) && AllEncode(isa, st, |st.records|)
    requires !InBss(st, st.records[k])
    requires st.records[k].action.Execute?
    requires st.records[k].action.instruction.target == Some(SymbolPlus(name, addend))
    requires name in st.symbols && st.symbols[name].section == Some(st.records[k].section)
    requires StoresDisplacement(isa, st.records[k].action.instruction, bits, alignment, fieldOf)
    ensures var r := st.records[k];
      var data := Content(isa, st, r.section, |st.records|).bytes;
      && bits > 0 && r.offset + 4 <= |data|
      && var word := FromLittleEndian(data[r.offset..r.offset + 4]);
         && word < 0x1_0000_0000
         && r.offset + alignment * FromWord(fieldOf(word), bits) == st.symbols[name].offset + addend
  {
    hide Content, Placed, LittleEndian, FromLittleEndian, Displacement, Pow2, FromWord, SizeBefore;
    var r := st.records[k];
    RecordEmitted(isa, st, k);
    var code := isa.relocCode(r.action.instruction);
    BranchFieldReaches(st.symbols, r.section, r.offset, name, addend, code, bits, alignment);
    var distance := PcRelative(st.symbols, r.section, r.offset, SymbolPlus(name, addend), code).value.0;
    var word := isa.encode(r.action.instruction, distance).value;
    Pow2At32();
    LittleEndianRoundTrip(word, 4);
  }
}
