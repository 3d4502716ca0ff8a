/** Where relocations stand: inside the node that their site names, in
    increasing order, with one 8-bit field for every LOOP and no other. */
module Amd64RelocProof {
  import opened AsmSections
  import opened Bits
  import opened Wrappers
  import opened Amd64Program
  import opened Amd64Layout
  import opened Amd64Encode
  import opened Amd64Invariants
  import opened Amd64LayoutProof
  import opened Amd64CodeProof

  function LoopField(target: Name, offset: nat): Reloc {
    Reloc(offset + 1, target, Relative8, -1)
  }

  /** The relocation lies inside node `j`, and is its LOOP field if it is 8 bits wide. */
  ghost predicate Belongs(nodes: seq<Node>, lengths: seq<nat>, s: nat, reloc: Reloc, j: nat)
    requires |nodes| == |lengths|
  {
    && j < |nodes| && SectionAt(nodes, lengths, j) == s
    && var at := OffsetAt(nodes, lengths, j);
       && (nodes[j].IsInstruction() || nodes[j].DataNode?)
       && at <= reloc.offset < at + Growth(nodes[j], lengths[j], at)
       && (reloc.kind.Relative8? ==> nodes[j].LoopNode? && reloc == LoopField(nodes[j].target, at))
  }

  ghost predicate SitesInv(
    nodes: seq<Node>, k: nat, lengths: seq<nat>, sections: seq<Section>, sites: map<(nat, nat), nat>)
    requires |nodes| == |lengths|
  {
    && SitesCover(sections, sites)
    && forall s, x | 0 <= s < |sections| && 0 <= x < |sections[s].relocs| ::
         sites[(s, x)] < k && Belongs(nodes, lengths, s, sections[s].relocs[x], sites[(s, x)])
  }

  ghost predicate Increasing(relocs: seq<Reloc>, bound: nat) {
    && (forall x | 0 <= x < |relocs| :: relocs[x].offset < bound)
    && (forall x, y | 0 <= x < y < |relocs| :: relocs[x].offset < relocs[y].offset)
  }

  ghost predicate Ordered(sections: seq<Section>) {
    forall s | 0 <= s < |sections| :: Increasing(sections[s].relocs, |sections[s].data|)
  }

  lemma CodeRelocs(st: State, node: Node, i: nat, hint: Option<Layout>, code: Encoding)
    requires st.Sound() && i < |st.lengths| && HintFits(hint, |st.lengths|)
    requires ValidNode(node) && NodeCode(st, node, i, hint, code)
    ensures Increasing(code.relocs, |code.bytes|)
    ensures node.LoopNode? ==> code == EncodeLoop(node.target)
    ensures !node.LoopNode? ==> forall x | 0 <= x < |code.relocs| :: !code.relocs[x].kind.Relative8?
    ensures code.relocs != [] ==> node.IsInstruction() || node.DataNode?
  {
    hide Run, Step;
  }

  lemma AppendOrdered(st: State, st': State, node: nat, code: Encoding, zeros: nat)
    requires st.Sound() && Ordered(st.sections) && Appends(st, st', node, code, zeros)
    requires Increasing(code.relocs, |code.bytes|)
    ensures Ordered(st'.sections)
  {
    assert Increasing(st.sections[st.current].relocs, |st.sections[st.current].data|);
    assert Increasing(st'.sections[st.current].relocs, |st'.sections[st.current].data|);
  }

  lemma StepOrdered(
    st: State, node: Node, i: nat, hint: Option<Layout>, maxOutput: nat, st': State)
    requires st.Sound() && i < |st.lengths| && HintFits(hint, |st.lengths|) && ValidNode(node)
    requires Step(st, node, i, hint, maxOutput) == Success(st') && Ordered(st.sections)
    ensures Ordered(st'.sections)
  {
    if IsGrowing(node) {
      var code, zeros := StepAppends(st, node, i, hint, maxOutput, st');
      hide Step, Increasing, Appends, Ordered, NodeCode;
      CodeRelocs(st, node, i, hint, code);
      AppendOrdered(st, st', i, code, zeros);
    }
  }

  /** Old relocations keep their sites; new ones are recorded at node `i`. */
  lemma StepSites(st: State, node: Node, i: nat, hint: Option<Layout>, maxOutput: nat, st': State)
    requires st.Sound() && i < |st.lengths| && HintFits(hint, |st.lengths|) && ValidNode(node)
    requires Step(st, node, i, hint, maxOutput) == Success(st')
    ensures Extends(st.sections, st'.sections)
    ensures forall s, x | 0 <= s < |st.sections| && 0 <= x < |st.sections[s].relocs| ::
      (s, x) in st'.sites && st'.sites[(s, x)] == st.sites[(s, x)]
    ensures forall s | |st.sections| <= s < |st'.sections| :: st'.sections[s].relocs == []
    ensures forall s | 0 <= s < |st.sections| && (s != st.current || !IsGrowing(node)) ::
      st'.sections[s].relocs == st.sections[s].relocs
  {
    StepExtends(st, node, i, hint, maxOutput, st');
    if IsGrowing(node) {
      var code, zeros := StepAppends(st, node, i, hint, maxOutput, st');
      hide Step, NodeCode, Records, Extends;
    }
  }

  lemma BelongsStays(nodes: seq<Node>, k: nat, a: seq<nat>, b: seq<nat>, s: nat, reloc: Reloc, j: nat)
    requires j < k <= |nodes| == |a| == |b| && a[..k] == b[..k]
    requires Belongs(nodes, a, s, reloc, j)
    ensures Belongs(nodes, b, s, reloc, j)
  {
    hide Walk;
    assert a[j] == a[..k][j] && b[j] == b[..k][j];
    WalksAgree(nodes, a, b, k);
  }

  /** The relocations that node `k` adds lie inside node `k`. */
  lemma NewRelocs(
    nodes: seq<Node>, k: nat, st: State, hint: Option<Layout>, maxOutput: nat, st': State, x: nat)
    requires k < |nodes| && st.Sound() && LayoutInv(nodes, k, st) && HintFits(hint, |nodes|)
    requires ValidNode(nodes[k]) && Step(st, nodes[k], k, hint, maxOutput) == Success(st')
    requires |st'.lengths| == |nodes| && st'.lengths[..k] == st.lengths[..k]
    requires |st'.sections| >= |st.sections|
    requires |st.sections[st.current].relocs| <= x < |st'.sections[st.current].relocs|
    ensures (st.current, x) in st'.sites && st'.sites[(st.current, x)] == k
    ensures Belongs(nodes, st'.lengths, st.current, st'.sections[st.current].relocs[x], k)
  {
    hide Step, NodeCode, Records, LayoutInv, Walk, ValidNode, Appends, SitesCover, EncodeInstruction;
    StepSites(st, nodes[k], k, hint, maxOutput, st');
    CursorAtEnd(nodes, k, st);
    WalkFrame(nodes, st.lengths, st'.lengths, k);
    var code, zeros := StepAppends(st, nodes[k], k, hint, maxOutput, st');
    CodeRelocs(st, nodes[k], k, hint, code);
    AppendedReloc(st, st', k, code, zeros, x);
    assert code.relocs[x - |st.sections[st.current].relocs|].offset < |code.bytes|;
  }

  lemma AppendedReloc(st: State, st': State, node: nat, code: Encoding, zeros: nat, x: nat)
    requires st.Sound() && Appends(st, st', node, code, zeros)
    requires |st.sections[st.current].relocs| <= x < |st'.sections[st.current].relocs|
    ensures (st.current, x) in st'.sites && st'.sites[(st.current, x)] == node
    ensures var old_ := st.sections[st.current];
            && x - |old_.relocs| < |code.relocs|
            && var reloc := code.relocs[x - |old_.relocs|];
               st'.sections[st.current].relocs[x] == reloc.(offset := reloc.offset + |old_.data|)
    ensures code.relocs != []
    ensures code.bytes != [] ==> st.sections[st.current].kind != Bss
  {
    var old_ := st.sections[st.current];
    var from := |old_.relocs|;
    assert (st.current, x) in Sites(st.current, from, from + |code.relocs|, node);
    assert st'.sections[st.current].relocs[x] == Shifted(code.relocs, |old_.data|)[x - from];
  }

  lemma StepSitesInv(
    nodes: seq<Node>, k: nat, st: State, hint: Option<Layout>, maxOutput: nat, st': State)
    requires k < |nodes| && st.Sound() && LayoutInv(nodes, k, st) && HintFits(hint, |nodes|)
    requires ValidNode(nodes[k]) && Step(st, nodes[k], k, hint, maxOutput) == Success(st')
    requires SitesInv(nodes, k, st.lengths, st.sections, st.sites)
    ensures |st'.lengths| == |nodes|
    ensures SitesInv(nodes, k + 1, st'.lengths, st'.sections, st'.sites)
  {
    StepSites(st, nodes[k], k, hint, maxOutput, st');
    StepPrefix(nodes, k, st, hint, maxOutput, st');
    hide Step, Belongs, LayoutInv, ValidNode;
    forall s, x | 0 <= s < |st'.sections| && 0 <= x < |st'.sections[s].relocs|
      ensures st'.sites[(s, x)] <= k
      ensures Belongs(nodes, st'.lengths, s, st'.sections[s].relocs[x], st'.sites[(s, x)])
    {
      if s < |st.sections| && x < |st.sections[s].relocs| {
        var j := st.sites[(s, x)];
        assert st'.sites[(s, x)] == j;
        assert st'.sections[s].relocs[x] == st.sections[s].relocs[x];
        BelongsStays(nodes, k, st.lengths, st'.lengths, s, st.sections[s].relocs[x], j);
      } else {
        NewRelocs(nodes, k, st, hint, maxOutput, st', x);
      }
    }
  }

  ghost predicate RelocInv(nodes: seq<Node>, k: nat, st: State)
    requires k <= |nodes| == |st.lengths|
  {
    && SitesInv(nodes, k, st.lengths, st.sections, st.sites)
    && Ordered(st.sections)
  }

  lemma {:induction false} RunRelocs(
    nodes: seq<Node>, k: nat, hint: Option<Layout>, forced: set<nat>, maxOutput: nat)
    requires k <= |nodes| && HintFits(hint, |nodes|) && ValidProgram(nodes)
    requires Run(nodes, k, hint, forced, maxOutput).Success?
    ensures RelocInv(nodes, k, Run(nodes, k, hint, forced, maxOutput).value)
  {
    hide Step, LayoutInv, SitesInv, Ordered;
    if k == 0 {
      InitialRelocs(nodes, forced);
    } else {
      var before := Run(nodes, k - 1, hint, forced, maxOutput).value;
      var after := Run(nodes, k, hint, forced, maxOutput).value;
      RunRelocs(nodes, k - 1, hint, forced, maxOutput);
      RunLayout(nodes, k - 1, hint, forced, maxOutput);
      StepSitesInv(nodes, k - 1, before, hint, maxOutput, after);
      StepOrdered(before, nodes[k - 1], k - 1, hint, maxOutput, after);
    }
  }

  lemma InitialRelocs(nodes: seq<Node>, forced: set<nat>)
    ensures RelocInv(nodes, 0, Initial(|nodes|, forced))
  {
  }
}
