/** Every pass lays the program out exactly as the reference layout of the
    lengths it chose: equal length vectors force equal layouts. */
module Amd64LayoutProof {
  import opened AsmSections
  import opened Bits
  import opened Wrappers
  import opened Amd64Program
  import opened Amd64Layout
  import opened Amd64Encode
  import opened Amd64Invariants

  /** Bytes exist in ordinary sections only, within the host's object size. */
  ghost predicate Bounded(sec: Section) {
    if sec.kind == Bss then sec.data == [] else sec.zeroFill == 0 && |sec.data| <= ISIZE_MAX
  }

  ghost predicate AllBounded(sections: seq<Section>) {
    forall s | 0 <= s < |sections| :: Bounded(sections[s])
  }

  ghost predicate LayoutInv(nodes: seq<Node>, k: nat, st: State) {
    && k <= |nodes| == |st.lengths| == |st.offsets|
    && CursorOf(st) == Walk(nodes, st.lengths, k)
    && AllBounded(st.sections)
    && (forall j | 0 <= j < |nodes| ::
         st.offsets[j] == if j < k && nodes[j].IsInstruction() then OffsetAt(nodes, st.lengths, j) else 0)
  }

  lemma AppendCursor(st: State, st': State, node: Node, i: nat, code: Encoding, zeros: nat, length: nat)
    requires st.Sound() && Appends(st, st', i, code, zeros) && IsGrowing(node)
    requires |code.bytes| + zeros == Growth(node, length, st.sections[st.current].Size())
    ensures CursorOf(st').Valid() && CursorOf(st') == Advance(node, length, CursorOf(st))
  {
    var c, c' := CursorOf(st), CursorOf(st');
    assert c.names == c'.names;
    assert c.kinds == c'.kinds;
    assert c'.sizes == Advance(node, length, c).sizes;
  }

  lemma SelectCursor(st: State, name: Name, kind: Option<SectionKind>, st': State)
    requires st.Sound() && SelectSection(st, name, kind) == Success(st')
    ensures CursorOf(st') == Advance(SectionNode(name, kind), 0, CursorOf(st))
  {
    var c, c' := CursorOf(st), CursorOf(st');
    var d := Advance(SectionNode(name, kind), 0, c);
    assert c'.names == d.names;
    assert c'.kinds == d.kinds;
    assert c'.sizes == d.sizes;
  }

  lemma StepCursor(
    st: State, node: Node, i: nat, hint: Option<Layout>, maxOutput: nat, st': State)
    requires st.Sound() && i < |st.lengths| && HintFits(hint, |st.lengths|)
    requires Step(st, node, i, hint, maxOutput) == Success(st')
    ensures CursorOf(st') == Advance(node, st'.lengths[i], CursorOf(st))
  {
    if IsGrowing(node) {
      var code, zeros := StepAppends(st, node, i, hint, maxOutput, st');
      hide Step, Appends;
      AppendCursor(st, st', node, i, code, zeros, st'.lengths[i]);
    } else if node.SectionNode? {
      SelectCursor(st, node.name, node.kind, st');
    }
  }

  lemma StepBounded(
    st: State, node: Node, i: nat, hint: Option<Layout>, maxOutput: nat, st': State)
    requires st.Sound() && i < |st.lengths| && HintFits(hint, |st.lengths|)
    requires AllBounded(st.sections)
    requires Step(st, node, i, hint, maxOutput) == Success(st')
    ensures AllBounded(st'.sections)
  {
    if IsGrowing(node) {
      var code, zeros := StepAppends(st, node, i, hint, maxOutput, st');
      hide Step;
    }
  }

  /** Only an instruction writes the length and offset tables, at its own index. */
  lemma StepTables(
    st: State, node: Node, i: nat, hint: Option<Layout>, maxOutput: nat, st': State)
    requires st.Sound() && i < |st.lengths| && HintFits(hint, |st.lengths|)
    requires Step(st, node, i, hint, maxOutput) == Success(st')
    ensures if node.IsInstruction() then
              && st'.lengths == st.lengths[i := st'.lengths[i]]
              && st'.offsets == st.offsets[i := |st.sections[st.current].data|]
              && st.sections[st.current].kind != Bss
            else st'.lengths == st.lengths && st'.offsets == st.offsets && st'.forced == st.forced
  {
    if IsGrowing(node) {
      var code, zeros := StepAppends(st, node, i, hint, maxOutput, st');
      hide Step;
    }
  }

  lemma WalksAgree(nodes: seq<Node>, a: seq<nat>, b: seq<nat>, k: nat)
    requires k <= |nodes| == |a| == |b| && a[..k] == b[..k]
    ensures forall j | 0 <= j <= k :: Walk(nodes, b, j) == Walk(nodes, a, j)
  {
    hide Walk;
    forall j | 0 <= j <= k
      ensures Walk(nodes, b, j) == Walk(nodes, a, j)
    {
      assert a[..j] == a[..k][..j] && b[..j] == b[..k][..j];
      WalkFrame(nodes, a, b, j);
    }
  }

  lemma StepOffsets(
    nodes: seq<Node>, k: nat, st: State, hint: Option<Layout>, maxOutput: nat, st': State)
    requires k < |nodes| && st.Sound() && LayoutInv(nodes, k, st) && HintFits(hint, |nodes|)
    requires Step(st, nodes[k], k, hint, maxOutput) == Success(st')
    requires |st'.lengths| == |st.lengths| && st'.lengths[..k] == st.lengths[..k]
    ensures |st'.offsets| == |nodes|
    ensures forall j | 0 <= j < |nodes| ::
      st'.offsets[j] == if j <= k && nodes[j].IsInstruction() then OffsetAt(nodes, st'.lengths, j) else 0
  {
    StepTables(st, nodes[k], k, hint, maxOutput, st');
    WalksAgree(nodes, st.lengths, st'.lengths, k);
    hide Step, Walk;
    assert Bounded(st.sections[st.current]);
    assert CursorOf(st).sizes[st.current] == st.sections[st.current].Size();
  }

  lemma StepPrefix(
    nodes: seq<Node>, k: nat, st: State, hint: Option<Layout>, maxOutput: nat, st': State)
    requires k < |nodes| == |st.lengths| && st.Sound() && HintFits(hint, |nodes|)
    requires Step(st, nodes[k], k, hint, maxOutput) == Success(st')
    ensures |st'.lengths| == |st.lengths| && st'.lengths[..k] == st.lengths[..k]
  {
    StepTables(st, nodes[k], k, hint, maxOutput, st');
  }

  lemma StepLayout(
    nodes: seq<Node>, k: nat, st: State, hint: Option<Layout>, maxOutput: nat, st': State)
    requires k < |nodes| && st.Sound() && LayoutInv(nodes, k, st) && HintFits(hint, |nodes|)
    requires Step(st, nodes[k], k, hint, maxOutput) == Success(st')
    ensures LayoutInv(nodes, k + 1, st')
  {
    StepPrefix(nodes, k, st, hint, maxOutput, st');
    StepCursor(st, nodes[k], k, hint, maxOutput, st');
    StepBounded(st, nodes[k], k, hint, maxOutput, st');
    StepOffsets(nodes, k, st, hint, maxOutput, st');
    WalkFrame(nodes, st.lengths, st'.lengths, k);
    hide Step, AllBounded, CursorOf, Advance, OffsetAt;
    assert Walk(nodes, st'.lengths, k + 1) ==
           Advance(nodes[k], st'.lengths[k], Walk(nodes, st'.lengths, k));
  }

  lemma InitialLayout(nodes: seq<Node>, forced: set<nat>)
    ensures LayoutInv(nodes, 0, Initial(|nodes|, forced))
  {
    assert CursorOf(Initial(|nodes|, forced)) == START;
  }

  lemma {:induction false} RunLayout(
    nodes: seq<Node>, k: nat, hint: Option<Layout>, forced: set<nat>, maxOutput: nat)
    requires k <= |nodes| && HintFits(hint, |nodes|)
    requires Run(nodes, k, hint, forced, maxOutput).Success?
    ensures LayoutInv(nodes, k, Run(nodes, k, hint, forced, maxOutput).value)
  {
    hide Step, LayoutInv;
    if k == 0 {
      InitialLayout(nodes, forced);
    } else {
      RunLayout(nodes, k - 1, hint, forced, maxOutput);
      var before := Run(nodes, k - 1, hint, forced, maxOutput).value;
      StepLayout(nodes, k - 1, before, hint, maxOutput, Run(nodes, k, hint, forced, maxOutput).value);
    }
  }

  /** The layout a pass returns is the reference layout of its lengths. */
  lemma PassLayout(
    nodes: seq<Node>, hint: Option<Layout>, forced: set<nat>, maxOutput: nat, pass: Pass)
    requires HintFits(hint, |nodes|) && IsPass(nodes, hint, forced, maxOutput, Success(pass))
    ensures |pass.layout.lengths| == |nodes|
    ensures pass.layout == LayoutOf(nodes, pass.layout.lengths)
  {
    hide Run;
    RunLayout(nodes, |nodes|, hint, forced, maxOutput);
    var st := Run(nodes, |nodes|, hint, forced, maxOutput).value;
    assert CursorOf(st).labels == st.labels;
    assert st.offsets == LayoutOf(nodes, st.lengths).offsets;
  }
}
