/** A complete account of a pass's output: what stands in padding and reserved
    space, where every relocation comes from, and how sections are aligned. */
module Amd64OutputProof {
  import opened AsmSections
  import opened Bits
  import opened Wrappers
  import opened Amd64Program
  import opened Amd64Layout
  import opened Amd64Encode
  import opened Amd64Invariants
  import opened Amd64LayoutProof
  import opened Amd64CodeProof
  import opened Amd64RelocProof

  predicate IsFill(node: Node) {
    node.AlignNode? || node.ReserveNode?
  }

  /** Padding in text is one-byte NOPs, all other padding and space is zero. */
  ghost predicate FilledAt(nodes: seq<Node>, lengths: seq<nat>, j: nat, sections: seq<Section>)
    requires j < |nodes| == |lengths|
  {
    var c := Walk(nodes, lengths, j);
    var s, from, to := c.current, OffsetAt(nodes, lengths, j), OffsetAt(nodes, lengths, j + 1);
    c.kinds[s] != Bss ==>
      && s < |sections| && from <= to <= |sections[s].data|
      && forall p | from <= p < to ::
           sections[s].data[p] == if nodes[j].AlignNode? && c.kinds[s] == Text then 0x90 else 0
  }

  ghost predicate FillInv(nodes: seq<Node>, k: nat, lengths: seq<nat>, sections: seq<Section>)
    requires k <= |nodes| == |lengths|
  {
    forall j: nat | j < k && IsFill(nodes[j]) :: FilledAt(nodes, lengths, j, sections)
  }

  lemma FillStays(
    nodes: seq<Node>, j: nat, k: nat, a: seq<nat>, b: seq<nat>, old_: seq<Section>, new_: seq<Section>)
    requires j < k <= |nodes| == |a| == |b| && a[..k] == b[..k]
    requires FilledAt(nodes, a, j, old_) && Extends(old_, new_)
    ensures FilledAt(nodes, b, j, new_)
  {
    hide Walk;
    WalksAgree(nodes, a, b, k);
    var c := Walk(nodes, a, j);
    if c.kinds[c.current] != Bss {
      assert old_[c.current].data <= new_[c.current].data;
    }
  }

  lemma StepFills(
    nodes: seq<Node>, k: nat, st: State, hint: Option<Layout>, maxOutput: nat, st': State)
    requires k < |nodes| && st.Sound() && LayoutInv(nodes, k, st) && HintFits(hint, |nodes|)
    requires IsFill(nodes[k]) && Step(st, nodes[k], k, hint, maxOutput) == Success(st')
    requires |st'.lengths| == |nodes| && st'.lengths[..k] == st.lengths[..k]
    requires LayoutInv(nodes, k + 1, st')
    ensures FilledAt(nodes, st'.lengths, k, st'.sections)
  {
    hide Step, LayoutInv, Walk, Padding, IsPowerOfTwo, EncodeInstruction, SitesCover, AllBounded;
    var code, zeros := StepAppends(st, nodes[k], k, hint, maxOutput, st');
    CursorAtEnd(nodes, k, st);
    WalkFrame(nodes, st.lengths, st'.lengths, k);
    CurrentAfter(nodes, st'.lengths, k);
    var old_, new_ := st.sections[st.current], st'.sections[st.current];
    if old_.kind != Bss {
      AppendedBytes(old_.data, code.bytes, if nodes[k].AlignNode? && old_.kind == Text then 0x90 else 0);
    }
  }

  lemma AppendedBytes(data: seq<Byte>, bytes: seq<Byte>, byte: Byte)
    requires forall b | b in bytes :: b == byte
    ensures forall p | |data| <= p < |data + bytes| :: (data + bytes)[p] == byte
  {
    forall p | |data| <= p < |data + bytes| ensures (data + bytes)[p] == byte {
      assert (data + bytes)[p] == bytes[p - |data|] && bytes[p - |data|] in bytes;
    }
  }

  /** A fill node ends where its growth says, in the same section. */
  lemma CurrentAfter(nodes: seq<Node>, lengths: seq<nat>, k: nat)
    requires k < |nodes| == |lengths| && !nodes[k].SectionNode? && !nodes[k].LabelNode?
    ensures SectionAt(nodes, lengths, k + 1) == SectionAt(nodes, lengths, k)
    ensures OffsetAt(nodes, lengths, k + 1) ==
      OffsetAt(nodes, lengths, k) + Growth(nodes[k], lengths[k], OffsetAt(nodes, lengths, k))
  {
  }

  lemma {:induction false} RunFills(
    nodes: seq<Node>, k: nat, hint: Option<Layout>, forced: set<nat>, maxOutput: nat)
    requires k <= |nodes| && HintFits(hint, |nodes|)
    requires Run(nodes, k, hint, forced, maxOutput).Success?
    ensures var st := Run(nodes, k, hint, forced, maxOutput).value;
      FillInv(nodes, k, st.lengths, st.sections)
  {
    hide Step, LayoutInv, FilledAt, Extends;
    if k > 0 {
      var before := Run(nodes, k - 1, hint, forced, maxOutput).value;
      var after := Run(nodes, k, hint, forced, maxOutput).value;
      RunFills(nodes, k - 1, hint, forced, maxOutput);
      RunLayout(nodes, k - 1, hint, forced, maxOutput);
      RunLayout(nodes, k, hint, forced, maxOutput);
      StepPrefix(nodes, k - 1, before, hint, maxOutput, after);
      StepExtends(before, nodes[k - 1], k - 1, hint, maxOutput, after);
      forall j: nat | j < k - 1 && IsFill(nodes[j])
        ensures FilledAt(nodes, after.lengths, j, after.sections)
      {
        FillStays(nodes, j, k - 1, before.lengths, after.lengths, before.sections, after.sections);
      }
      if IsFill(nodes[k - 1]) {
        StepFills(nodes, k - 1, before, hint, maxOutput, after);
      }
    }
  }

  /** The relocation is one of those that node `j` contributes to section `s`. */
  ghost predicate Sourced(
    nodes: seq<Node>, lengths: seq<nat>, previous: Layout, forced: set<nat>, s: nat, reloc: Reloc, j: nat)
    requires |nodes| == |lengths| && HintFits(Some(previous), |nodes|)
  {
    && j < |nodes| && HasCode(nodes[j]) && SectionAt(nodes, lengths, j) == s
    && var code, at := NodeEncoding(nodes, lengths, j, previous, forced), OffsetAt(nodes, lengths, j);
       code.Success? && reloc.offset >= at && reloc.(offset := reloc.offset - at) in code.value.relocs
  }

  ghost predicate SourcesInv(
    nodes: seq<Node>, k: nat, lengths: seq<nat>, previous: Layout, forced: set<nat>, sections: seq<Section>,
    sites: map<(nat, nat), nat>)
    requires |nodes| == |lengths| && HintFits(Some(previous), |nodes|)
  {
    forall s, x | 0 <= s < |sections| && 0 <= x < |sections[s].relocs| ::
      && (s, x) in sites && sites[(s, x)] < k
      && Sourced(nodes, lengths, previous, forced, s, sections[s].relocs[x], sites[(s, x)])
  }

  lemma SourceStays(
    nodes: seq<Node>, j: nat, k: nat, a: seq<nat>, b: seq<nat>, previous: Layout, f: set<nat>, g: set<nat>,
    s: nat, reloc: Reloc)
    requires j < k <= |nodes| == |a| == |b| && a[..k] == b[..k] && HintFits(Some(previous), |nodes|)
    requires j in f <==> j in g
    requires Sourced(nodes, a, previous, f, s, reloc, j)
    ensures Sourced(nodes, b, previous, g, s, reloc, j)
  {
    hide Walk, EncodeInstruction;
    WalksAgree(nodes, a, b, k);
  }

  /** The relocations that node `k` adds are those of its code. */
  lemma NewSources(
    nodes: seq<Node>, k: nat, st: State, previous: Layout, maxOutput: nat, st': State, x: nat)
    requires k < |nodes| && st.Sound() && LayoutInv(nodes, k, st) && HintFits(Some(previous), |nodes|)
    requires ValidNode(nodes[k]) && Step(st, nodes[k], k, Some(previous), maxOutput) == Success(st')
    requires |st'.lengths| == |nodes| && st'.lengths[..k] == st.lengths[..k]
    requires |st'.sections| >= |st.sections|
    requires |st.sections[st.current].relocs| <= x < |st'.sections[st.current].relocs|
    ensures (st.current, x) in st'.sites && st'.sites[(st.current, x)] == k
    ensures Sourced(nodes, st'.lengths, previous, st.forced, st.current, st'.sections[st.current].relocs[x], k)
  {
    hide Step, Records, LayoutInv, Walk, ValidNode, Appends, SitesCover, EncodeInstruction;
    var hint := Some(previous);
    StepSites(st, nodes[k], k, hint, maxOutput, st');
    CursorAtEnd(nodes, k, st);
    WalkFrame(nodes, st.lengths, st'.lengths, k);
    var code, zeros := StepAppends(st, nodes[k], k, hint, maxOutput, st');
    CodeRelocs(st, nodes[k], k, hint, code);
    AppendedReloc(st, st', k, code, zeros, x);
    var y := x - |st.sections[st.current].relocs|;
    assert code.relocs[y].offset < |code.bytes| && code.relocs[y] in code.relocs;
  }

  lemma StepSources(
    nodes: seq<Node>, k: nat, st: State, previous: Layout, forced: set<nat>, maxOutput: nat, st': State)
    requires k < |nodes| && st.Sound() && LayoutInv(nodes, k, st) && HintFits(Some(previous), |nodes|)
    requires ValidNode(nodes[k]) && Step(st, nodes[k], k, Some(previous), maxOutput) == Success(st')
    requires k in st.forced <==> k in forced
    requires SourcesInv(nodes, k, st.lengths, previous, forced, st.sections, st.sites)
    ensures |st'.lengths| == |nodes|
    ensures SourcesInv(nodes, k + 1, st'.lengths, previous, forced, st'.sections, st'.sites)
  {
    var hint := Some(previous);
    StepSites(st, nodes[k], k, hint, maxOutput, st');
    StepPrefix(nodes, k, st, hint, maxOutput, st');
    hide Step, Sourced, LayoutInv, ValidNode;
    forall s, x | 0 <= s < |st'.sections| && 0 <= x < |st'.sections[s].relocs|
      ensures (s, x) in st'.sites && st'.sites[(s, x)] <= k
      ensures Sourced(nodes, st'.lengths, previous, forced, s, st'.sections[s].relocs[x], st'.sites[(s, x)])
    {
      if s < |st.sections| && x < |st.sections[s].relocs| {
        var j := st.sites[(s, x)];
        assert st'.sections[s].relocs[x] == st.sections[s].relocs[x];
        SourceStays(nodes, j, k, st.lengths, st'.lengths, previous, forced, forced, s, st.sections[s].relocs[x]);
      } else {
        NewSources(nodes, k, st, previous, maxOutput, st', x);
        SamePins(nodes, st'.lengths, previous, st.forced, forced, s, st'.sections[s].relocs[x], k);
      }
    }
  }

  lemma SamePins(
    nodes: seq<Node>, lengths: seq<nat>, previous: Layout, f: set<nat>, g: set<nat>, s: nat, reloc: Reloc, j: nat)
    requires |nodes| == |lengths| && HintFits(Some(previous), |nodes|) && (j in f <==> j in g)
    requires Sourced(nodes, lengths, previous, f, s, reloc, j)
    ensures Sourced(nodes, lengths, previous, g, s, reloc, j)
  {
    SourceStays(nodes, j, |nodes|, lengths, lengths, previous, f, g, s, reloc);
  }

  lemma {:induction false} RunSources(
    nodes: seq<Node>, k: nat, previous: Layout, forced: set<nat>, maxOutput: nat)
    requires k <= |nodes| && HintFits(Some(previous), |nodes|) && ValidProgram(nodes)
    requires Run(nodes, k, Some(previous), forced, maxOutput).Success?
    ensures var st := Run(nodes, k, Some(previous), forced, maxOutput).value;
      SourcesInv(nodes, k, st.lengths, previous, forced, st.sections, st.sites)
  {
    hide Step, LayoutInv, SourcesInv, LengthsFit;
    var hint := Some(previous);
    if k == 0 {
      NoSources(nodes, previous, forced);
    } else {
      var before := Run(nodes, k - 1, hint, forced, maxOutput).value;
      var after := Run(nodes, k, hint, forced, maxOutput).value;
      RunSources(nodes, k - 1, previous, forced, maxOutput);
      RunLayout(nodes, k - 1, hint, forced, maxOutput);
      RunLengths(nodes, k - 1, hint, forced, maxOutput);
      StepSources(nodes, k - 1, before, previous, forced, maxOutput, after);
    }
  }

  lemma NoSources(nodes: seq<Node>, previous: Layout, forced: set<nat>)
    requires HintFits(Some(previous), |nodes|)
    ensures var st := Initial(|nodes|, forced);
      SourcesInv(nodes, 0, st.lengths, previous, forced, st.sections, st.sites)
  {
  }

  /** A section is aligned like its kind, or like the largest `align` operand in it. */
  ghost predicate AlignedLike(nodes: seq<Node>, k: nat, lengths: seq<nat>, sections: seq<Section>, s: nat)
    requires k <= |nodes| == |lengths| && s < |sections|
  {
    var align, initial := sections[s].align, if sections[s].kind == Text then 16 else 1;
    && align >= initial
    && (forall j: nat | j < k && nodes[j].AlignNode? && SectionAt(nodes, lengths, j) == s :: nodes[j].value <= align)
    && (align == initial
        || exists j: nat :: j < k && nodes[j].AlignNode? && SectionAt(nodes, lengths, j) == s && nodes[j].value == align)
  }

  ghost predicate AlignInv(nodes: seq<Node>, k: nat, lengths: seq<nat>, sections: seq<Section>)
    requires k <= |nodes| == |lengths|
  {
    forall s: nat | s < |sections| :: AlignedLike(nodes, k, lengths, sections, s)
  }

  /** The alignment of every section after one node. */
  lemma StepAlignments(st: State, node: Node, i: nat, hint: Option<Layout>, maxOutput: nat, st': State)
    requires st.Sound() && i < |st.lengths| && HintFits(hint, |st.lengths|)
    requires Step(st, node, i, hint, maxOutput) == Success(st')
    ensures |st.sections| <= |st'.sections|
    ensures forall s | 0 <= s < |st.sections| ::
      && st'.sections[s].kind == st.sections[s].kind
      && st'.sections[s].align ==
           if s == st.current && node.AlignNode? && node.value > st.sections[s].align then node.value
           else st.sections[s].align
    ensures forall s | |st.sections| <= s < |st'.sections| ::
      st'.sections[s].align == DefaultAlignment(st'.sections[s].kind)
  {
    hide EncodeInstruction, SitesCover, Padding, IsPowerOfTwo, Shifted, Sites, ReserveOutput, Repeat, NamesOf;
  }

  lemma StepAlignInv(nodes: seq<Node>, k: nat, st: State, hint: Option<Layout>, maxOutput: nat, st': State)
    requires k < |nodes| && st.Sound() && LayoutInv(nodes, k, st) && HintFits(hint, |nodes|)
    requires Step(st, nodes[k], k, hint, maxOutput) == Success(st')
    requires |st'.lengths| == |nodes| && st'.lengths[..k] == st.lengths[..k]
    requires AlignInv(nodes, k, st.lengths, st.sections)
    ensures AlignInv(nodes, k + 1, st'.lengths, st'.sections)
  {
    hide Step, LayoutInv, Walk, AlignedLike, SitesCover;
    StepAlignments(st, nodes[k], k, hint, maxOutput, st');
    CursorAtEnd(nodes, k, st);
    WalksAgree(nodes, st.lengths, st'.lengths, k);
    forall j: nat | j <= k
      ensures SectionAt(nodes, st.lengths, j) < |st.sections|
      ensures SectionAt(nodes, st'.lengths, j) == SectionAt(nodes, st.lengths, j)
    {
      SectionsSoFar(nodes, k, st, j);
    }
    var n := k + 1;
    forall s: nat | s < |st'.sections|
      ensures AlignedLike(nodes, n, st'.lengths, st'.sections, s)
    {
      if s < |st.sections| {
        AlignedNext(nodes, k, st.lengths, st'.lengths, st.sections, st'.sections, s);
      } else {
        AlignedNew(nodes, k, st'.lengths, st'.sections, s);
      }
    }
  }

  lemma AlignedNext(
    nodes: seq<Node>, k: nat, a: seq<nat>, b: seq<nat>, old_: seq<Section>, new_: seq<Section>, s: nat)
    requires k < |nodes| == |a| == |b| && s < |old_| <= |new_|
    requires AlignedLike(nodes, k, a, old_, s) && new_[s].kind == old_[s].kind
    requires forall j: nat | j <= k :: SectionAt(nodes, b, j) == SectionAt(nodes, a, j)
    requires new_[s].align ==
      if s == SectionAt(nodes, a, k) && nodes[k].AlignNode? && nodes[k].value > old_[s].align then nodes[k].value
      else old_[s].align
    ensures AlignedLike(nodes, k + 1, b, new_, s)
  {
    hide SectionAt;
  }

  lemma AlignedNew(nodes: seq<Node>, k: nat, lengths: seq<nat>, sections: seq<Section>, s: nat)
    requires k < |nodes| == |lengths| && s < |sections|
    requires forall j: nat | j <= k :: SectionAt(nodes, lengths, j) < s
    requires sections[s].align == DefaultAlignment(sections[s].kind)
    ensures AlignedLike(nodes, k + 1, lengths, sections, s)
  {
    hide SectionAt;
  }

  /** Nodes up to `k` lie in sections that exist before node `k`. */
  lemma SectionsSoFar(nodes: seq<Node>, k: nat, st: State, j: nat)
    requires j <= k < |nodes| && LayoutInv(nodes, k, st)
    ensures SectionAt(nodes, st.lengths, j) < |st.sections|
  {
    hide Walk;
    var s := SectionAt(nodes, st.lengths, j);
    SizesGrow(nodes, st.lengths, j, k, s);
    assert |CursorOf(st).sizes| == |st.sections|;
  }

  lemma {:induction false} RunAlignments(
    nodes: seq<Node>, k: nat, hint: Option<Layout>, forced: set<nat>, maxOutput: nat)
    requires k <= |nodes| && HintFits(hint, |nodes|)
    requires Run(nodes, k, hint, forced, maxOutput).Success?
    ensures var st := Run(nodes, k, hint, forced, maxOutput).value;
      AlignInv(nodes, k, st.lengths, st.sections)
  {
    hide Step, LayoutInv;
    if k > 0 {
      hide AlignInv;
      var before := Run(nodes, k - 1, hint, forced, maxOutput).value;
      var after := Run(nodes, k, hint, forced, maxOutput).value;
      RunAlignments(nodes, k - 1, hint, forced, maxOutput);
      RunLayout(nodes, k - 1, hint, forced, maxOutput);
      StepPrefix(nodes, k - 1, before, hint, maxOutput, after);
      StepAlignInv(nodes, k - 1, before, hint, maxOutput, after);
    }
  }
}
