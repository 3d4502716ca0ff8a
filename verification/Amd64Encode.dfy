/**
  One encoding pass. Branch forms are chosen from the previous pass's layout;
  the pass grows its sections node by node and returns the layout it produced.
 */
module Amd64Encode {
  import opened AsmSections
  import opened Bits
  import opened Wrappers
  import opened Amd64Program
  import opened Amd64Layout

  datatype Encoding = Encoding(bytes: seq<Byte>, relocs: seq<Reloc>)

  /** What the encoder of one instruction looks at. */
  datatype Context = Context(
    section: nat, offset: nat, labels: map<Name, (nat, nat)>, previousLength: nat, forceNear: bool)

  function Signed8(byte: Byte): int {
    if byte >= 128 then byte - 256 else byte
  }

  function Signed32(bytes: seq<Byte>): int
    requires |bytes| == 4
  {
    FromWord(FromLittleEndian(bytes), 32)
  }

  function EncodeJump(form: BranchForm, target: Name, cx: Context): Result<Encoding, ErrorKind> {
    if target in cx.labels && cx.labels[target].0 == cx.section then
      var goal := cx.labels[target].1;
      // A forward target moves when this branch itself shrinks.
      var ownShrink := if goal > cx.offset && cx.previousLength > 2 then cx.previousLength - 2 else 0;
      var short := goal - ownShrink - (cx.offset + 2);
      if form.short.Some? && !cx.forceNear && -128 <= short <= 127 then
        Success(Encoding([form.short.value, short % 256], []))
      else
        var near := goal - (cx.offset + form.NearLength());
        if -0x8000_0000 <= near <= 0x7fff_ffff then
          Success(Encoding(form.near + LittleEndian(near % 0x1_0000_0000, 4), []))
        else
          Failure(NearOutOfRange(target))
    else
      Success(Encoding(form.near + LittleEndian(0, 4), [Reloc(|form.near|, target, Branch32, -4)]))
  }

  function EncodeLoop(target: Name): Encoding {
    Encoding([0xE2, 0], [Reloc(1, target, Relative8, -1)])
  }

  function EncodeInstruction(node: Node, cx: Context): Result<Encoding, ErrorKind>
    requires node.IsInstruction()
  {
    match node
    case FixedNode(bytes, relocs) => Success(Encoding(bytes, relocs))
    case BranchNode(form, target) => EncodeJump(form, target, cx)
    case LoopNode(target) => Success(EncodeLoop(target))
  }

  datatype State = State(
    sections: seq<Section>, current: nat, labels: map<Name, (nat, nat)>, lengths: seq<nat>,
    offsets: seq<nat>, forced: set<nat>, materialized: nat, externs: set<Name>,
    sites: map<(nat, nat), nat>)
  {
    /** Indices stay in range and every relocation has a recorded source node. */
    predicate Sound() {
      && current < |sections|
      && |lengths| == |offsets|
      && SitesCover(sections, sites)
    }
  }

  predicate SitesCover(sections: seq<Section>, sites: map<(nat, nat), nat>) {
    forall s, r | 0 <= s < |sections| && 0 <= r < |sections[s].relocs| :: (s, r) in sites
  }

  const TEXT := Section(".text", Text, 16, [], 0, [])

  function Initial(count: nat, forced: set<nat>): (st: State)
    ensures st.Sound()
  {
    State([TEXT], 0, map[], seq(count, _ => 0), seq(count, _ => 0), forced, 0, {}, map[])
  }

  function NamesOf(sections: seq<Section>): (names: seq<Name>)
    ensures |names| == |sections|
  {
    seq(|sections|, i requires 0 <= i < |sections| => sections[i].name)
  }

  function DefaultAlignment(kind: SectionKind): nat {
    if kind == Text then 16 else 1
  }

  function SelectSection(st: State, name: Name, kind: Option<SectionKind>): (r: Result<State, ErrorKind>)
    requires st.Sound()
    ensures r.Success? ==> r.value.Sound()
  {
    var index := FirstIndex(NamesOf(st.sections), name);
    if index < |st.sections| then
      if kind.Some? && kind.value != st.sections[index].kind then Failure(IncompatibleSection(name))
      else Success(st.(current := index))
    else
      var chosen := if kind.Some? then kind.value else DefaultKind(name);
      if IsStandard(name) && chosen != DefaultKind(name) then Failure(StandardSectionKind(name))
      else
        Success(st.(
          sections := st.sections + [Section(name, chosen, DefaultAlignment(chosen), [], 0, [])],
          current := index))
  }

  function DefineExtern(st: State, name: Name): (r: Result<State, ErrorKind>)
    requires st.Sound()
    ensures r.Success? ==> r.value.Sound()
  {
    if name in st.labels then Failure(ExternAlreadyDefined(name))
    else Success(st.(externs := st.externs + {name}))
  }

  function DefineLabel(st: State, name: Name): (r: Result<State, ErrorKind>)
    requires st.Sound()
    ensures r.Success? ==> r.value.Sound()
  {
    if name in st.externs then Failure(LabelConflictsWithExtern(name))
    else if name in st.labels then Failure(DuplicateLabel(name))
    else if st.sections[st.current].Size() >= WORD_64 then Failure(SizeOverflow)
    else Success(st.(labels := st.labels[name := (st.current, st.sections[st.current].Size())]))
  }

  /** The checks made before a section's data grows; the new total on success. */
  function ReserveOutput(length: nat, extra: nat, materialized: nat, maxOutput: nat): Result<nat, ErrorKind> {
    if materialized + extra >= WORD_64 || length + extra >= WORD_64 then Failure(SizeOverflow)
    else if materialized + extra > maxOutput || length + extra > ISIZE_MAX then Failure(OutputLimit)
    else Success(materialized + extra)
  }

  function Shifted(relocs: seq<Reloc>, base: nat): (r: seq<Reloc>)
    ensures |r| == |relocs|
  {
    seq(|relocs|, i requires 0 <= i < |relocs| => relocs[i].(offset := relocs[i].offset + base))
  }

  function Sites(section: nat, from: nat, to: nat, node: nat): (m: map<(nat, nat), nat>)
    ensures forall p :: p in m <==> p.0 == section && from <= p.1 < to
    ensures forall p | p in m :: m[p] == node
  {
    map r: nat | from <= r < to :: (section, r) := node
  }

  /** Append bytes and their relocations to the current section. */
  function Emit(st: State, node: nat, code: Encoding, maxOutput: nat): (r: Result<State, ErrorKind>)
    requires st.Sound()
    ensures r.Success? ==> r.value.Sound()
  {
    var sec := st.sections[st.current];
    var total := ReserveOutput(|sec.data|, |code.bytes|, st.materialized, maxOutput);
    if total.Failure? then Failure(total.error)
    else
      var relocs := sec.relocs + Shifted(code.relocs, |sec.data|);
      Success(st.(
        sections := st.sections[st.current := sec.(data := sec.data + code.bytes, relocs := relocs)],
        materialized := total.value,
        sites := st.sites + Sites(st.current, |sec.relocs|, |relocs|, node)))
  }

  function ContextAt(st: State, i: nat, hint: Option<Layout>): Context
    requires st.Sound()
    requires hint.Some? ==> i < |hint.value.lengths| && i < |hint.value.offsets|
  {
    match hint
    case None => Context(st.current, |st.sections[st.current].data|, st.labels, 0, i in st.forced)
    case Some(h) => Context(st.current, h.offsets[i], h.labels, h.lengths[i], i in st.forced)
  }

  /** A branch that was short and has to grow again stays near from now on. */
  predicate MustStayNear(node: Node, i: nat, length: nat, hint: Option<Layout>)
    requires hint.Some? ==> i < |hint.value.lengths|
  {
    hint.Some? && hint.value.lengths[i] == 2 && length > 2 && node.IsRelaxable()
  }

  function EmitInstruction(
    st: State, node: Node, i: nat, hint: Option<Layout>, maxOutput: nat): (r: Result<State, ErrorKind>)
    requires st.Sound() && i < |st.lengths| && node.IsInstruction()
    requires hint.Some? ==> i < |hint.value.lengths| && i < |hint.value.offsets|
    ensures r.Success? ==> r.value.Sound()
  {
    if st.sections[st.current].kind == Bss then Failure(InstructionInBss)
    else
      var code := EncodeInstruction(node, ContextAt(st, i, hint));
      if code.Failure? then Failure(code.error)
      else
        var length := |code.value.bytes|;
        Emit(
          st.(forced := if MustStayNear(node, i, length, hint) then st.forced + {i} else st.forced,
              lengths := st.lengths[i := length],
              offsets := st.offsets[i := |st.sections[st.current].data|]),
          i, code.value, maxOutput)
  }

  /** Grow the zero fill of a BSS section. */
  function GrowBss(st: State, extra: nat): (r: Result<State, ErrorKind>)
    requires st.Sound()
    ensures r.Success? ==> r.value.Sound()
  {
    var sec := st.sections[st.current];
    if sec.zeroFill + extra >= WORD_64 then Failure(SizeOverflow)
    else Success(st.(sections := st.sections[st.current := sec.(zeroFill := sec.zeroFill + extra)]))
  }

  function Repeat(byte: Byte, count: nat): (bytes: seq<Byte>)
    ensures |bytes| == count
  {
    seq(count, _ => byte)
  }

  function EmitAlign(st: State, node: nat, value: int, maxOutput: nat): (r: Result<State, ErrorKind>)
    requires st.Sound()
    ensures r.Success? ==> r.value.Sound()
  {
    if !(0 < value < WORD_64) || !IsPowerOfTwo(value) then Failure(BadAlignment)
    else
      var sec := st.sections[st.current];
      var padding := Padding(sec.Size(), value);
      if sec.Size() + padding >= WORD_64 then Failure(SizeOverflow)
      else
        var aligned := st.(sections := st.sections[
          st.current := sec.(align := if sec.align >= value then sec.align else value)]);
        if sec.kind == Bss then GrowBss(aligned, padding)
        else
          Emit(aligned, node, Encoding(Repeat(if sec.kind == Text then 0x90 else 0, padding), []), maxOutput)
  }

  function EmitData(st: State, node: nat, code: Encoding, maxOutput: nat): (r: Result<State, ErrorKind>)
    requires st.Sound()
    ensures r.Success? ==> r.value.Sound()
  {
    if st.sections[st.current].kind != Bss then Emit(st, node, code, maxOutput)
    else if code.relocs == [] && forall b | b in code.bytes :: b == 0 then GrowBss(st, |code.bytes|)
    else Failure(BssInitializer)
  }

  function EmitReserve(st: State, node: nat, size: nat, maxOutput: nat): (r: Result<State, ErrorKind>)
    requires st.Sound()
    ensures r.Success? ==> r.value.Sound()
  {
    if size >= WORD_64 then Failure(SizeOverflow)
    else if st.sections[st.current].kind == Bss then GrowBss(st, size)
    else Emit(st, node, Encoding(Repeat(0, size), []), maxOutput)
  }

  function Step(st: State, node: Node, i: nat, hint: Option<Layout>, maxOutput: nat): (r: Result<State, ErrorKind>)
    requires st.Sound() && i < |st.lengths|
    requires hint.Some? ==> i < |hint.value.lengths| && i < |hint.value.offsets|
    ensures r.Success? ==> r.value.Sound() && |r.value.lengths| == |st.lengths|
  {
    match node
    case SectionNode(name, kind) => SelectSection(st, name, kind)
    case LabelNode(name) => DefineLabel(st, name)
    case ExternNode(name) => DefineExtern(st, name)
    case AlignNode(value) => EmitAlign(st, i, value, maxOutput)
    case DataNode(bytes, relocs) => EmitData(st, i, Encoding(bytes, relocs), maxOutput)
    case ReserveNode(size) => EmitReserve(st, i, size, maxOutput)
    case _ => EmitInstruction(st, node, i, hint, maxOutput)
  }

  ghost predicate HintFits(hint: Option<Layout>, count: nat) {
    hint.Some? ==> |hint.value.lengths| == count && |hint.value.offsets| == count
  }

  /** The state after the first `k` nodes. */
  ghost function Run(
    nodes: seq<Node>, k: nat, hint: Option<Layout>, forced: set<nat>, maxOutput: nat): (r: Result<State, AsmError>)
    requires k <= |nodes| && HintFits(hint, |nodes|)
    ensures r.Success? ==> r.value.Sound() && |r.value.lengths| == |nodes|
  {
    if k == 0 then Success(Initial(|nodes|, forced))
    else
      var before := Run(nodes, k - 1, hint, forced, maxOutput);
      if before.Failure? then before
      else
        var after := Step(before.value, nodes[k - 1], k - 1, hint, maxOutput);
        if after.Failure? then Failure(At(after.error, k - 1)) else Success(after.value)
  }

  predicate Defined(reloc: Reloc, labels: map<Name, (nat, nat)>, externs: set<Name>) {
    reloc.symbol in labels || reloc.symbol in externs
  }

  ghost predicate AllDefined(sections: seq<Section>, labels: map<Name, (nat, nat)>, externs: set<Name>) {
    forall s, r | 0 <= s < |sections| && 0 <= r < |sections[s].relocs| ::
      Defined(sections[s].relocs[r], labels, externs)
  }

  datatype Pass = Pass(sections: seq<Section>, layout: Layout, sites: map<(nat, nat), nat>, forced: set<nat>)

  /** One pass over the program; it fails in the middle, or at the end on the
      first relocation against a symbol nobody declared. */
  ghost predicate IsPass(
    nodes: seq<Node>, hint: Option<Layout>, forced: set<nat>, maxOutput: nat, r: Result<Pass, AsmError>)
    requires HintFits(hint, |nodes|)
  {
    match Run(nodes, |nodes|, hint, forced, maxOutput)
    case Failure(error) => r == Failure(error)
    case Success(st) =>
      if AllDefined(st.sections, st.labels, st.externs) then
        r == Success(Pass(st.sections, Layout(st.labels, st.lengths, st.offsets), st.sites, st.forced))
      else exists s, x |
        && 0 <= s < |st.sections| && 0 <= x < |st.sections[s].relocs| ::
        && !Defined(st.sections[s].relocs[x], st.labels, st.externs)
        && (forall q, y |
             && 0 <= q <= s && 0 <= y < |st.sections[q].relocs| && (q < s || y < x) ::
             Defined(st.sections[q].relocs[y], st.labels, st.externs))
        && r == Failure(At(UndefinedSymbol(st.sections[s].relocs[x].symbol), st.sites[(s, x)]))
  }
}
