/** What holds after every node of a pass: the layout is the reference layout
    of the lengths, every instruction's bytes are in place, and every
    relocation lies in the node that its site names. */
module Amd64Invariants {
  import opened AsmSections
  import opened Bits
  import opened Wrappers
  import opened Amd64Program
  import opened Amd64Layout
  import opened Amd64Encode

  ghost function SizesOf(sections: seq<Section>): (sizes: seq<nat>)
    ensures |sizes| == |sections|
  {
    seq(|sections|, i requires 0 <= i < |sections| => sections[i].Size())
  }

  ghost function KindsOf(sections: seq<Section>): (kinds: seq<SectionKind>)
    ensures |kinds| == |sections|
  {
    seq(|sections|, i requires 0 <= i < |sections| => sections[i].kind)
  }

  ghost function CursorOf(st: State): Cursor {
    Cursor(NamesOf(st.sections), KindsOf(st.sections), SizesOf(st.sections), st.current, st.labels)
  }

  /** The current section becomes longer by `code` and `zeros`; nothing else moves. */
  ghost predicate Grows(old_: Section, new_: Section, code: Encoding, zeros: nat) {
    && new_.name == old_.name && new_.kind == old_.kind
    && new_.data == old_.data + code.bytes
    && new_.zeroFill == old_.zeroFill + zeros
    && new_.relocs == old_.relocs + Shifted(code.relocs, |old_.data|)
    && (if new_.kind == Bss then code.bytes == [] else zeros == 0 && |new_.data| <= ISIZE_MAX)
  }

  ghost predicate Appends(st: State, st': State, node: nat, code: Encoding, zeros: nat)
    requires st.Sound()
  {
    && st'.current == st.current && st'.labels == st.labels && st'.externs == st.externs
    && |st'.sections| == |st.sections|
    && (forall s | 0 <= s < |st.sections| && s != st.current :: st'.sections[s] == st.sections[s])
    && Grows(st.sections[st.current], st'.sections[st.current], code, zeros)
    && var from := |st.sections[st.current].relocs|;
       st'.sites == st.sites + Sites(st.current, from, from + |code.relocs|, node)
  }

  const NOTHING := Encoding([], [])

  lemma EmitAppends(st: State, node: nat, code: Encoding, maxOutput: nat, st': State)
    requires st.Sound() && st.sections[st.current].kind != Bss
    requires Emit(st, node, code, maxOutput) == Success(st')
    ensures Appends(st, st', node, code, 0)
    ensures st'.lengths == st.lengths && st'.offsets == st.offsets && st'.forced == st.forced
  {
  }

  lemma GrowBssAppends(st: State, node: nat, extra: nat, st': State)
    requires st.Sound() && st.sections[st.current].kind == Bss
    requires GrowBss(st, extra) == Success(st')
    ensures Appends(st, st', node, NOTHING, extra)
    ensures st'.lengths == st.lengths && st'.offsets == st.offsets && st'.forced == st.forced
  {
  }

  lemma AlignAppends(st: State, node: nat, value: int, maxOutput: nat, st': State)
    returns (code: Encoding, zeros: nat)
    requires st.Sound() && EmitAlign(st, node, value, maxOutput) == Success(st')
    ensures Appends(st, st', node, code, zeros) && code.relocs == []
    ensures forall b | b in code.bytes :: b == if st.sections[st.current].kind == Text then 0x90 else 0
    ensures value > 0 && |code.bytes| + zeros == Padding(st.sections[st.current].Size(), value)
    ensures st'.lengths == st.lengths && st'.offsets == st.offsets && st'.forced == st.forced
  {
    var sec := st.sections[st.current];
    var padding := Padding(sec.Size(), value);
    var aligned := st.(sections := st.sections[
      st.current := sec.(align := if sec.align >= value then sec.align else value)]);
    if sec.kind == Bss {
      GrowBssAppends(aligned, node, padding, st');
      code, zeros := NOTHING, padding;
    } else {
      code, zeros := Encoding(Repeat(if sec.kind == Text then 0x90 else 0, padding), []), 0;
      EmitAppends(aligned, node, code, maxOutput, st');
    }
  }

  lemma ReserveAppends(st: State, node: nat, size: nat, maxOutput: nat, st': State)
    returns (code: Encoding, zeros: nat)
    requires st.Sound() && EmitReserve(st, node, size, maxOutput) == Success(st')
    ensures Appends(st, st', node, code, zeros) && code.relocs == []
    ensures forall b | b in code.bytes :: b == 0
    ensures |code.bytes| + zeros == size
    ensures st'.lengths == st.lengths && st'.offsets == st.offsets && st'.forced == st.forced
  {
    if st.sections[st.current].kind == Bss {
      GrowBssAppends(st, node, size, st');
      code, zeros := NOTHING, size;
    } else {
      code, zeros := Encoding(Repeat(0, size), []), 0;
      EmitAppends(st, node, code, maxOutput, st');
    }
  }

  lemma DataAppends(st: State, node: nat, data: Encoding, maxOutput: nat, st': State)
    returns (code: Encoding, zeros: nat)
    requires st.Sound() && EmitData(st, node, data, maxOutput) == Success(st')
    ensures Appends(st, st', node, code, zeros)
    ensures code == if st.sections[st.current].kind == Bss then NOTHING else data
    ensures |code.bytes| + zeros == |data.bytes|
    ensures st'.lengths == st.lengths && st'.offsets == st.offsets && st'.forced == st.forced
  {
    if st.sections[st.current].kind == Bss {
      GrowBssAppends(st, node, |data.bytes|, st');
      code, zeros := NOTHING, |data.bytes|;
    } else {
      code, zeros := data, 0;
      EmitAppends(st, node, code, maxOutput, st');
    }
  }

  lemma InstructionAppends(
    st: State, node: Node, i: nat, hint: Option<Layout>, maxOutput: nat, st': State)
    returns (code: Encoding)
    requires st.Sound() && i < |st.lengths| && HintFits(hint, |st.lengths|) && node.IsInstruction()
    requires EmitInstruction(st, node, i, hint, maxOutput) == Success(st')
    ensures Appends(st, st', i, code, 0) && st.sections[st.current].kind != Bss
    ensures EncodeInstruction(node, ContextAt(st, i, hint)) == Success(code)
    ensures st'.lengths == st.lengths[i := |code.bytes|]
    ensures st'.offsets == st.offsets[i := |st.sections[st.current].data|]
    ensures st'.forced == if MustStayNear(node, i, |code.bytes|, hint) then st.forced + {i} else st.forced
  {
    hide EncodeInstruction, Emit, Appends, SitesCover;
    code := EncodeInstruction(node, ContextAt(st, i, hint)).value;
    var noted := st.(
      forced := if MustStayNear(node, i, |code.bytes|, hint) then st.forced + {i} else st.forced,
      lengths := st.lengths[i := |code.bytes|],
      offsets := st.offsets[i := |st.sections[st.current].data|]);
    EmitAppends(noted, i, code, maxOutput, st');
    AppendsFrame(st, noted, st', i, code);
  }

  /** `Appends` does not look at the length, offset and pin tables. */
  lemma AppendsFrame(st: State, noted: State, st': State, node: nat, code: Encoding)
    requires st.Sound() && noted.Sound() && Appends(noted, st', node, code, 0)
    requires noted == st.(forced := noted.forced, lengths := noted.lengths, offsets := noted.offsets)
    ensures Appends(st, st', node, code, 0)
  {
    hide SitesCover;
  }

  predicate IsGrowing(node: Node) {
    !node.SectionNode? && !node.LabelNode? && !node.ExternNode?
  }

  /** What one growing node adds to the current section. */
  ghost predicate NodeCode(
    st: State, node: Node, i: nat, hint: Option<Layout>, code: Encoding)
    requires st.Sound() && i < |st.lengths| && HintFits(hint, |st.lengths|) && |st.offsets| == |st.lengths|
  {
    if node.IsInstruction() then
      && st.sections[st.current].kind != Bss
      && EncodeInstruction(node, ContextAt(st, i, hint)) == Success(code)
    else if node.DataNode? then
      code == if st.sections[st.current].kind == Bss then NOTHING else Encoding(node.bytes, node.relocs)
    else
      && code.relocs == []
      && forall b | b in code.bytes ::
           b == if node.AlignNode? && st.sections[st.current].kind == Text then 0x90 else 0
  }

  ghost predicate Records(
    st: State, st': State, node: Node, i: nat, hint: Option<Layout>, code: Encoding)
    requires st.Sound() && i < |st.lengths| && HintFits(hint, |st.lengths|)
  {
    if node.IsInstruction() then
      && st'.lengths == st.lengths[i := |code.bytes|]
      && st'.offsets == st.offsets[i := |st.sections[st.current].data|]
      && st'.forced ==
         if MustStayNear(node, i, |code.bytes|, hint) then st.forced + {i} else st.forced
    else
      st'.lengths == st.lengths && st'.offsets == st.offsets && st'.forced == st.forced
  }

  lemma StepAppends(st: State, node: Node, i: nat, hint: Option<Layout>, maxOutput: nat, st': State)
    returns (code: Encoding, zeros: nat)
    requires st.Sound() && i < |st.lengths| && HintFits(hint, |st.lengths|) && IsGrowing(node)
    requires Step(st, node, i, hint, maxOutput) == Success(st')
    ensures Appends(st, st', i, code, zeros)
    ensures NodeCode(st, node, i, hint, code)
    ensures Records(st, st', node, i, hint, code)
    ensures |code.bytes| + zeros == Growth(node, st'.lengths[i], st.sections[st.current].Size())
  {
    if node.AlignNode? {
      code, zeros := AlignAppends(st, i, node.value, maxOutput, st');
    } else if node.DataNode? {
      code, zeros := DataAppends(st, i, Encoding(node.bytes, node.relocs), maxOutput, st');
    } else if node.ReserveNode? {
      code, zeros := ReserveAppends(st, i, node.size, maxOutput, st');
    } else {
      zeros := 0;
      code := InstructionAppends(st, node, i, hint, maxOutput, st');
    }
  }
}
