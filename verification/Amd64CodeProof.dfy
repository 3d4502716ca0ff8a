/** The lengths a pass can choose, the branches it pins, and where the bytes of
    each instruction end up. */
module Amd64CodeProof {
  import opened AsmSections
  import opened Bits
  import opened Wrappers
  import opened Amd64Program
  import opened Amd64Layout
  import opened Amd64Encode
  import opened Amd64Invariants
  import opened Amd64LayoutProof

  /** The only lengths an encoder can give a node. */
  ghost predicate LengthFits(node: Node, length: nat, force: bool) {
    match node
    case FixedNode(bytes, _) => length == |bytes|
    case LoopNode(_) => length == 2
    case BranchNode(form, _) =>
      length == form.NearLength() || (length == 2 && form.short.Some? && !force)
    case _ => length == 0
  }

  ghost predicate LengthsFit(nodes: seq<Node>, k: nat, forced: set<nat>, lengths: seq<nat>)
    requires k <= |nodes| == |lengths|
  {
    && (forall j | 0 <= j < k :: LengthFits(nodes[j], lengths[j], j in forced))
    && (forall j | k <= j < |nodes| :: lengths[j] == 0)
  }

  /** The pinned set grows by exactly the branches that had to leave the short form. */
  ghost predicate PinsExactly(
    nodes: seq<Node>, k: nat, hint: Option<Layout>, forced: set<nat>, lengths: seq<nat>, forced': set<nat>)
    requires k <= |nodes| == |lengths| && HintFits(hint, |nodes|)
  {
    forall j: nat :: j in forced' <==>
      j in forced || (j < k && MustStayNear(nodes[j], j, lengths[j], hint))
  }

  lemma EncodedLength(node: Node, cx: Context)
    requires node.IsInstruction() && EncodeInstruction(node, cx).Success?
    ensures LengthFits(node, |EncodeInstruction(node, cx).value.bytes|, cx.forceNear)
  {
  }

  lemma StepLength(
    nodes: seq<Node>, k: nat, st: State, hint: Option<Layout>, maxOutput: nat, st': State)
    requires k < |nodes| == |st.lengths| && st.Sound() && HintFits(hint, |nodes|)
    requires Step(st, nodes[k], k, hint, maxOutput) == Success(st') && st.lengths[k] == 0
    ensures |st'.lengths| == |nodes|
    ensures LengthFits(nodes[k], st'.lengths[k], k in st.forced)
    ensures forall j | 0 <= j < |nodes| && j != k :: st'.lengths[j] == st.lengths[j]
    ensures st'.forced ==
      if MustStayNear(nodes[k], k, st'.lengths[k], hint) then st.forced + {k} else st.forced
  {
    var node := nodes[k];
    if IsGrowing(node) {
      var code, zeros := StepAppends(st, node, k, hint, maxOutput, st');
      hide Step, EncodeInstruction, Appends;
      if node.IsInstruction() {
        EncodedLength(node, ContextAt(st, k, hint));
      }
    }
  }

  lemma {:induction false} RunLengths(
    nodes: seq<Node>, k: nat, hint: Option<Layout>, forced: set<nat>, maxOutput: nat)
    requires k <= |nodes| && HintFits(hint, |nodes|)
    requires Run(nodes, k, hint, forced, maxOutput).Success?
    ensures var st := Run(nodes, k, hint, forced, maxOutput).value;
            && LengthsFit(nodes, k, forced, st.lengths)
            && PinsExactly(nodes, k, hint, forced, st.lengths, st.forced)
  {
    hide Step, LengthFits;
    if k > 0 {
      RunLengths(nodes, k - 1, hint, forced, maxOutput);
      var before := Run(nodes, k - 1, hint, forced, maxOutput).value;
      var after := Run(nodes, k, hint, forced, maxOutput).value;
      StepLength(nodes, k - 1, before, hint, maxOutput, after);
    }
  }

  /** `bytes` stand at offset `at` of section `s`. */
  ghost predicate Placed(sections: seq<Section>, s: nat, at: nat, bytes: seq<Byte>) {
    && s < |sections|
    && at + |bytes| <= |sections[s].data|
    && sections[s].data[at..at + |bytes|] == bytes
  }

  /** What the encoder of node `j` saw, given the previous layout. */
  ghost function CodeContext(
    nodes: seq<Node>, lengths: seq<nat>, j: nat, previous: Layout, forced: set<nat>): Context
    requires j < |nodes| == |lengths| && HintFits(Some(previous), |nodes|)
  {
    Context(SectionAt(nodes, lengths, j), previous.offsets[j], previous.labels,
            previous.lengths[j], j in forced)
  }

  predicate HasCode(node: Node) {
    node.IsInstruction() || node.DataNode?
  }

  /** Zero data in a BSS section takes up space without bytes. */
  ghost predicate IsZeroFill(nodes: seq<Node>, lengths: seq<nat>, j: nat)
    requires j < |nodes| == |lengths|
  {
    var c := Walk(nodes, lengths, j);
    nodes[j].DataNode? && c.kinds[c.current] == Bss
  }

  /** What node `j` contributes to its section. */
  ghost function NodeEncoding(
    nodes: seq<Node>, lengths: seq<nat>, j: nat, previous: Layout, forced: set<nat>): Result<Encoding, ErrorKind>
    requires j < |nodes| == |lengths| && HintFits(Some(previous), |nodes|) && HasCode(nodes[j])
  {
    if nodes[j].IsInstruction() then
      EncodeInstruction(nodes[j], CodeContext(nodes, lengths, j, previous, forced))
    else
      Success(Encoding(nodes[j].bytes, nodes[j].relocs))
  }

  /** All of `relocs`, moved by `base`, are relocations of section `s`. */
  ghost predicate Recorded(sections: seq<Section>, s: nat, base: nat, relocs: seq<Reloc>) {
    && s < |sections|
    && forall r | r in relocs :: r.(offset := r.offset + base) in sections[s].relocs
  }

  /** Node `j` is encoded, and its bytes and relocations stand at its reference offset. */
  ghost predicate CodeAt(
    nodes: seq<Node>, lengths: seq<nat>, j: nat, previous: Layout, forced: set<nat>, sections: seq<Section>)
    requires j < |nodes| == |lengths| && HintFits(Some(previous), |nodes|) && HasCode(nodes[j])
  {
    var code := NodeEncoding(nodes, lengths, j, previous, forced);
    var s, at := SectionAt(nodes, lengths, j), OffsetAt(nodes, lengths, j);
    && code.Success?
    && (nodes[j].IsInstruction() ==> lengths[j] == |code.value.bytes|)
    && (!IsZeroFill(nodes, lengths, j) ==>
         Placed(sections, s, at, code.value.bytes) && Recorded(sections, s, at, code.value.relocs))
  }

  ghost predicate CodeInv(
    nodes: seq<Node>, k: nat, lengths: seq<nat>, previous: Layout, forced: set<nat>, sections: seq<Section>)
    requires k <= |nodes| == |lengths| && HintFits(Some(previous), |nodes|)
  {
    forall j | 0 <= j < k && HasCode(nodes[j]) ::
      CodeAt(nodes, lengths, j, previous, forced, sections)
  }

  /** Sections only ever grow at the end. */
  ghost predicate Extends(old_: seq<Section>, new_: seq<Section>) {
    && |old_| <= |new_|
    && forall s | 0 <= s < |old_| :: old_[s].data <= new_[s].data && old_[s].relocs <= new_[s].relocs
  }

  lemma StepExtends(st: State, node: Node, i: nat, hint: Option<Layout>, maxOutput: nat, st': State)
    requires st.Sound() && i < |st.lengths| && HintFits(hint, |st.lengths|)
    requires Step(st, node, i, hint, maxOutput) == Success(st')
    ensures Extends(st.sections, st'.sections)
  {
    if IsGrowing(node) {
      var code, zeros := StepAppends(st, node, i, hint, maxOutput, st');
      hide Step, EncodeInstruction, NodeCode, Records;
    }
  }

  lemma PlacedExtends(old_: seq<Section>, new_: seq<Section>, s: nat, at: nat, bytes: seq<Byte>)
    requires Extends(old_, new_) && Placed(old_, s, at, bytes)
    ensures Placed(new_, s, at, bytes)
  {
    assert old_[s].data <= new_[s].data;
    assert new_[s].data[..|old_[s].data|] == old_[s].data;
    assert new_[s].data[at..at + |bytes|] == new_[s].data[..|old_[s].data|][at..at + |bytes|];
  }

  lemma RecordedExtends(old_: seq<Section>, new_: seq<Section>, s: nat, base: nat, relocs: seq<Reloc>)
    requires Extends(old_, new_) && Recorded(old_, s, base, relocs)
    ensures Recorded(new_, s, base, relocs)
  {
    forall r | r in relocs
      ensures r.(offset := r.offset + base) in new_[s].relocs
    {
      var x :| 0 <= x < |old_[s].relocs| && old_[s].relocs[x] == r.(offset := r.offset + base);
      assert new_[s].relocs[x] == old_[s].relocs[x];
    }
  }

  lemma AppendPlaces(st: State, st': State, node: nat, code: Encoding, zeros: nat)
    requires st.Sound() && Appends(st, st', node, code, zeros)
    ensures Placed(st'.sections, st.current, |st.sections[st.current].data|, code.bytes)
    ensures Recorded(st'.sections, st.current, |st.sections[st.current].data|, code.relocs)
  {
    var old_, new_ := st.sections[st.current], st'.sections[st.current];
    assert new_.data[|old_.data|..] == code.bytes;
    forall r | r in code.relocs
      ensures r.(offset := r.offset + |old_.data|) in new_.relocs
    {
      var y :| 0 <= y < |code.relocs| && code.relocs[y] == r;
      assert new_.relocs[|old_.relocs| + y] == Shifted(code.relocs, |old_.data|)[y];
    }
  }

  /** The cursor before node `k` stands at the end of the current section. */
  lemma CursorAtEnd(nodes: seq<Node>, k: nat, st: State)
    requires st.Sound() && LayoutInv(nodes, k, st)
    ensures SectionAt(nodes, st.lengths, k) == st.current
    ensures OffsetAt(nodes, st.lengths, k) == st.sections[st.current].Size()
    ensures Walk(nodes, st.lengths, k).kinds[st.current] == st.sections[st.current].kind
    ensures Bounded(st.sections[st.current])
  {
    hide Walk;
    assert CursorOf(st).current == st.current;
    assert CursorOf(st).kinds[st.current] == st.sections[st.current].kind;
    assert CursorOf(st).sizes[st.current] == st.sections[st.current].Size();
  }

  lemma StepPlaces(
    nodes: seq<Node>, k: nat, st: State, previous: Layout, maxOutput: nat, st': State)
    requires k < |nodes| && st.Sound() && LayoutInv(nodes, k, st) && HintFits(Some(previous), |nodes|)
    requires HasCode(nodes[k])
    requires Step(st, nodes[k], k, Some(previous), maxOutput) == Success(st')
    requires |st'.lengths| == |nodes| && st'.lengths[..k] == st.lengths[..k]
    ensures CodeAt(nodes, st'.lengths, k, previous, st.forced, st'.sections)
  {
    var code, zeros := StepAppends(st, nodes[k], k, Some(previous), maxOutput, st');
    AppendPlaces(st, st', k, code, zeros);
    CursorAtEnd(nodes, k, st);
    WalkFrame(nodes, st.lengths, st'.lengths, k);
    hide Step, EncodeInstruction, LayoutInv, Walk, Appends, Placed, Recorded;
  }

  lemma CodeStays(
    nodes: seq<Node>, j: nat, k: nat, a: seq<nat>, b: seq<nat>, previous: Layout, forced: set<nat>,
    old_: seq<Section>, new_: seq<Section>)
    requires j < k <= |nodes| == |a| == |b| && a[..k] == b[..k]
    requires HintFits(Some(previous), |nodes|) && HasCode(nodes[j])
    requires CodeAt(nodes, a, j, previous, forced, old_) && Extends(old_, new_)
    ensures CodeAt(nodes, b, j, previous, forced, new_)
  {
    hide EncodeInstruction, Walk, Placed, Recorded, Extends;
    assert a[j] == a[..k][j] && b[j] == b[..k][j];
    WalksAgree(nodes, a, b, k);
    var code := NodeEncoding(nodes, a, j, previous, forced).value;
    if !IsZeroFill(nodes, a, j) {
      var s, at := SectionAt(nodes, a, j), OffsetAt(nodes, a, j);
      PlacedExtends(old_, new_, s, at, code.bytes);
      RecordedExtends(old_, new_, s, at, code.relocs);
    }
  }

  lemma {:induction false} RunCode(
    nodes: seq<Node>, k: nat, previous: Layout, forced: set<nat>, maxOutput: nat)
    requires k <= |nodes| && HintFits(Some(previous), |nodes|)
    requires Run(nodes, k, Some(previous), forced, maxOutput).Success?
    ensures var st := Run(nodes, k, Some(previous), forced, maxOutput).value;
            CodeInv(nodes, k, st.lengths, previous, forced, st.sections)
  {
    hide Step, LayoutInv, CodeAt, Extends, LengthsFit;
    if k > 0 {
      var hint := Some(previous);
      var before := Run(nodes, k - 1, hint, forced, maxOutput).value;
      var after := Run(nodes, k, hint, forced, maxOutput).value;
      RunCode(nodes, k - 1, previous, forced, maxOutput);
      RunLayout(nodes, k - 1, hint, forced, maxOutput);
      StepPrefix(nodes, k - 1, before, hint, maxOutput, after);
      StepExtends(before, nodes[k - 1], k - 1, hint, maxOutput, after);
      forall j | 0 <= j < k - 1 && HasCode(nodes[j])
        ensures CodeAt(nodes, after.lengths, j, previous, forced, after.sections)
      {
        CodeStays(nodes, j, k - 1, before.lengths, after.lengths, previous, forced,
                  before.sections, after.sections);
      }
      if HasCode(nodes[k - 1]) {
        StepPlaces(nodes, k - 1, before, previous, maxOutput, after);
        RunLengths(nodes, k - 1, hint, forced, maxOutput);
        PinsIrrelevant(nodes, after.lengths, k - 1, previous, before.forced, forced, after.sections);
      }
    }
  }

  lemma PinsIrrelevant(
    nodes: seq<Node>, lengths: seq<nat>, j: nat, previous: Layout, a: set<nat>, b: set<nat>,
    sections: seq<Section>)
    requires j < |nodes| == |lengths| && HintFits(Some(previous), |nodes|) && HasCode(nodes[j])
    requires j in a <==> j in b
    requires CodeAt(nodes, lengths, j, previous, a, sections)
    ensures CodeAt(nodes, lengths, j, previous, b, sections)
  {
  }
}
