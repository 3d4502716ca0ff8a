/**
  Relaxation as a whole: passes repeat until a layout comes twice, then LOOP
  fields are resolved. In the result every branch lands on its label.
 */
module Amd64Relax {
  import opened AsmSections
  import opened Bits
  import opened Wrappers
  import opened Amd64Program
  import opened Amd64Layout
  import opened Amd64Encode
  import opened Amd64Pass
  import opened Amd64LayoutProof
  import opened Amd64CodeProof
  import opened Amd64Invariants
  import opened Amd64RelocProof
  import opened Amd64OutputProof
  import opened Amd64Loops
  import opened Amd64Convergence

  /** The JMP, Jcc or CALL at `at` transfers control to offset `goal`: the end
      of the instruction plus its sign-extended displacement. */
  ghost predicate JumpReaches(form: BranchForm, data: seq<Byte>, at: nat, length: nat, goal: nat) {
    && at + length <= |data|
    && if length == 2 then
         && form.short == Some(data[at])
         && at + 2 + Signed8(data[at + 1]) == goal
       else
         && length == form.NearLength()
         && data[at..at + |form.near|] == form.near
         && at + length + Signed32(data[at + |form.near|..at + length]) == goal
  }

  datatype Transfer = Jump | Call | Conditional(condition: nat)

  datatype Decoded = Decoded(transfer: Transfer, length: nat, displacement: int)

  /** The direct branch at `at`, by the opcode tables of the Intel SDM, Volume 2A,
      chapter 3 (entries CALL, Jcc and JMP). */
  function DecodeBranch(data: seq<Byte>, at: nat): Option<Decoded> {
    if at + 2 <= |data| && data[at] == 0xEB then Some(Decoded(Jump, 2, Signed8(data[at + 1])))
    else if at + 2 <= |data| && 0x70 <= data[at] <= 0x7F then
      Some(Decoded(Conditional(data[at] - 0x70), 2, Signed8(data[at + 1])))
    else if at + 5 <= |data| && data[at] == 0xE9 then Some(Decoded(Jump, 5, Signed32(data[at + 1..at + 5])))
    else if at + 5 <= |data| && data[at] == 0xE8 then Some(Decoded(Call, 5, Signed32(data[at + 1..at + 5])))
    else if at + 6 <= |data| && data[at] == 0x0F && 0x80 <= data[at + 1] <= 0x8F then
      Some(Decoded(Conditional(data[at + 1] - 0x80), 6, Signed32(data[at + 2..at + 6])))
    else None
  }

  /** A processor decodes the branch as the transfer that the program wrote, to the
      label. */
  lemma ReachingDecodes(data: seq<Byte>, at: nat, length: nat, goal: nat, condition: nat)
    requires condition < 16
    ensures JumpReaches(JMP, data, at, length, goal) ==>
      DecodeBranch(data, at) == Some(Decoded(Jump, length, goal - (at + length)))
    ensures JumpReaches(CALL, data, at, length, goal) ==>
      DecodeBranch(data, at) == Some(Decoded(Call, length, goal - (at + length)))
    ensures JumpReaches(Jcc(condition), data, at, length, goal) ==>
      DecodeBranch(data, at) == Some(Decoded(Conditional(condition), length, goal - (at + length)))
  {
    hide Signed32, Signed8;
    if at <= |data| && length != 2 {
      NearOpcode(JMP, data, at);
      NearOpcode(CALL, data, at);
      NearOpcode(Jcc(condition), data, at);
    }
  }

  lemma NearOpcode(form: BranchForm, data: seq<Byte>, at: nat)
    requires at <= |data|
    ensures at + |form.near| <= |data| && data[at..at + |form.near|] == form.near ==>
      forall x | 0 <= x < |form.near| :: data[at + x] == form.near[x]
  {
    if at + |form.near| <= |data| {
      var code := data[at..at + |form.near|];
      forall x | 0 <= x < |form.near| ensures code[x] == data[at + x] {
      }
    }
  }

  lemma Signed32RoundTrip(value: int)
    requires -0x8000_0000 <= value <= 0x7fff_ffff
    ensures Signed32(LittleEndian(value % 0x1_0000_0000, 4)) == value
  {
    Pow2At32();
    LittleEndianRoundTrip(value % 0x1_0000_0000, 4);
    SignExtendTruncate(value, 32);
    assert Pow2(31) == 0x8000_0000 by { assert Pow2(32) == 2 * Pow2(31); }
  }

  lemma ShortReaches(form: BranchForm, data: seq<Byte>, at: nat, goal: nat)
    requires at + 2 <= |data| && form.short.Some? && -128 <= goal - (at + 2) <= 127
    requires data[at..at + 2] == [form.short.value, (goal - (at + 2)) % 256]
    ensures JumpReaches(form, data, at, 2, goal)
  {
    assert data[at] == data[at..at + 2][0] && data[at + 1] == data[at..at + 2][1];
  }

  lemma NearReaches(form: BranchForm, data: seq<Byte>, at: nat, near: int, goal: nat)
    requires form.near != [] && at + form.NearLength() <= |data|
    requires -0x8000_0000 <= near <= 0x7fff_ffff && near == goal - (at + form.NearLength())
    requires data[at..at + form.NearLength()] == form.near + LittleEndian(near % 0x1_0000_0000, 4)
    ensures JumpReaches(form, data, at, form.NearLength(), goal)
  {
    hide LittleEndian, Signed32;
    var n := form.NearLength();
    var code := data[at..at + n];
    assert data[at..at + |form.near|] == code[..|form.near|] == form.near;
    assert data[at + |form.near|..at + n] == code[|form.near|..] == LittleEndian(near % 0x1_0000_0000, 4);
    Signed32RoundTrip(near);
  }

  /** A branch encoded against its own final layout reaches its label, although
      the displacement was corrected for a shrink that no longer happens. */
  lemma EncodedJumpReaches(
    form: BranchForm, target: Name, cx: Context, data: seq<Byte>)
    requires IsForm(form) && target in cx.labels && cx.labels[target].0 == cx.section
    requires EncodeJump(form, target, cx).Success?
    requires var code := EncodeJump(form, target, cx).value.bytes;
             && cx.previousLength == |code|
             && cx.offset + |code| <= |data| && data[cx.offset..cx.offset + |code|] == code
    ensures JumpReaches(form, data, cx.offset, cx.previousLength, cx.labels[target].1)
  {
    hide LittleEndian, Signed32, JumpReaches;
    var at, goal := cx.offset, cx.labels[target].1;
    if cx.previousLength == 2 {
      ShortReaches(form, data, at, goal);
    } else {
      NearReaches(form, data, at, goal - (at + form.NearLength()), goal);
    }
  }

  ghost predicate IsLocalTarget(nodes: seq<Node>, layout: Layout, i: nat, target: Name)
    requires i < |nodes| == |layout.lengths|
  {
    && target in layout.labels
    && layout.labels[target].0 == SectionAt(nodes, layout.lengths, i)
  }

  /** What the output contains for instruction or data node `i`: its bytes at
      its reference offset, a displacement that reaches a local label, and a
      relocation for everything that only the linker can fill in. */
  ghost predicate NodeLinked(nodes: seq<Node>, layout: Layout, sections: seq<Section>, i: nat)
    requires i < |nodes| == |layout.lengths| && HasCode(nodes[i])
  {
    var s, at := SectionAt(nodes, layout.lengths, i), OffsetAt(nodes, layout.lengths, i);
    && s < |sections|
    && var data, relocs := sections[s].data, sections[s].relocs;
       match nodes[i]
       case BranchNode(form, target) =>
         if IsLocalTarget(nodes, layout, i, target) then
           JumpReaches(form, data, at, layout.lengths[i], layout.labels[target].1)
         else
           && Placed(sections, s, at, form.near + LittleEndian(0, 4))
           && Reloc(at + |form.near|, target, Branch32, -4) in relocs
       case LoopNode(target) =>
         && at + 2 <= |data| && data[at] == 0xE2
         && if IsLocalTarget(nodes, layout, i, target) then
              at + 2 + Signed8(data[at + 1]) == layout.labels[target].1
            else
              data[at + 1] == 0 && Reloc(at + 1, target, Relative8, -1) in relocs
       case FixedNode(bytes, fields) =>
         Placed(sections, s, at, bytes) && Recorded(sections, s, at, fields)
       case DataNode(bytes, fields) =>
         sections[s].kind != Bss ==>
           Placed(sections, s, at, bytes) && Recorded(sections, s, at, fields)
       case _ => true
  }

  /** Relocation `reloc` of section `s` is what node `i` leaves to the linker. */
  ghost predicate RelocOwner(nodes: seq<Node>, layout: Layout, s: nat, reloc: Reloc, i: nat)
    requires |nodes| == |layout.lengths|
  {
    && i < |nodes| && SectionAt(nodes, layout.lengths, i) == s
    && var at := OffsetAt(nodes, layout.lengths, i);
       match nodes[i]
       case BranchNode(form, target) =>
         !IsLocalTarget(nodes, layout, i, target) && reloc == Reloc(at + |form.near|, target, Branch32, -4)
       case LoopNode(target) => !IsLocalTarget(nodes, layout, i, target) && reloc == Reloc(at + 1, target, Relative8, -1)
       case FixedNode(_, fields) => reloc.offset >= at && reloc.(offset := reloc.offset - at) in fields
       case DataNode(_, fields) => reloc.offset >= at && reloc.(offset := reloc.offset - at) in fields
       case _ => false
  }

  ghost predicate RelocsOwned(nodes: seq<Node>, layout: Layout, sections: seq<Section>)
    requires |nodes| == |layout.lengths|
  {
    forall s, x | 0 <= s < |sections| && 0 <= x < |sections[s].relocs| ::
      HasOwner(nodes, layout, s, sections[s].relocs[x])
  }

  ghost predicate HasOwner(nodes: seq<Node>, layout: Layout, s: nat, reloc: Reloc)
    requires |nodes| == |layout.lengths|
  {
    exists i: nat :: RelocOwner(nodes, layout, s, reloc, i)
  }

  /** The sections are those of the reference layout, with its sizes. */
  ghost predicate SectionsLaidOut(nodes: seq<Node>, layout: Layout, sections: seq<Section>)
    requires |nodes| == |layout.lengths|
  {
    var end := Walk(nodes, layout.lengths, |nodes|);
    && NamesOf(sections) == end.names && KindsOf(sections) == end.kinds
    && |sections| == |end.sizes|
    && forall s: nat | s < |sections| ::
         if sections[s].kind == Bss then sections[s].data == [] && sections[s].zeroFill == end.sizes[s]
         else sections[s].zeroFill == 0 && |sections[s].data| == end.sizes[s]
  }

  /** The output is laid out by the reference layout: its sections have exactly the
      sizes and alignments of the program, every node is linked, padding and space
      are filled, and every relocation is one that a node leaves to the linker. */
  ghost predicate Linked(nodes: seq<Node>, layout: Layout, sections: seq<Section>) {
    && |layout.lengths| == |nodes|
    && layout == LayoutOf(nodes, layout.lengths)
    && SectionsLaidOut(nodes, layout, sections)
    && AlignInv(nodes, |nodes|, layout.lengths, sections)
    && (forall i | 0 <= i < |nodes| && HasCode(nodes[i]) :: NodeLinked(nodes, layout, sections, i))
    && FillInv(nodes, |nodes|, layout.lengths, sections)
    && RelocsOwned(nodes, layout, sections)
  }

  /** One offset belongs to one node. */
  lemma SlotOwner(nodes: seq<Node>, lengths: seq<nat>, i: nat, j: nat, p: nat)
    requires i < |nodes| == |lengths| && j < |nodes|
    requires !nodes[i].SectionNode? && !nodes[i].LabelNode?
    requires !nodes[j].SectionNode? && !nodes[j].LabelNode?
    requires SectionAt(nodes, lengths, i) == SectionAt(nodes, lengths, j)
    requires OffsetAt(nodes, lengths, i) <= p
             < OffsetAt(nodes, lengths, i) + Growth(nodes[i], lengths[i], OffsetAt(nodes, lengths, i))
    requires OffsetAt(nodes, lengths, j) <= p
             < OffsetAt(nodes, lengths, j) + Growth(nodes[j], lengths[j], OffsetAt(nodes, lengths, j))
    ensures i == j
  {
    hide Walk;
    if i < j {
      SlotsDisjoint(nodes, lengths, i, j);
    } else if j < i {
      SlotsDisjoint(nodes, lengths, j, i);
    }
  }

  /** Node `i` fills the range of `n` bytes from its reference offset. */
  ghost predicate Fills(nodes: seq<Node>, layout: Layout, i: nat, s: nat, n: nat)
    requires i < |nodes| == |layout.lengths|
  {
    && !nodes[i].SectionNode? && !nodes[i].LabelNode?
    && SectionAt(nodes, layout.lengths, i) == s
    && n <= Growth(nodes[i], layout.lengths[i], OffsetAt(nodes, layout.lengths, i))
  }

  /** Resolving LOOP fields leaves the bytes of every other node alone. */
  lemma PatchSpares(nodes: seq<Node>, layout: Layout, pass: Pass, s: nat, i: nat, n: nat, p: nat)
    requires i < |nodes| == |layout.lengths| && s < |pass.sections|
    requires SitesInv(nodes, |nodes|, layout.lengths, pass.sections, pass.sites)
    requires Ordered(pass.sections) && FieldsInside(pass.sections[s])
    requires Fills(nodes, layout, i, s, n)
    requires var at := OffsetAt(nodes, layout.lengths, i);
             at <= p < at + n && p < |pass.sections[s].data| && (nodes[i].LoopNode? ==> p == at)
    ensures Resolved(pass.sections[s], s, layout.labels).data[p] == pass.sections[s].data[p]
  {
    hide Walk;
    var sec := pass.sections[s];
    assert Increasing(sec.relocs, |sec.data|);
    PatchedBytes(sec.data, sec.relocs, |sec.relocs|, s, layout.labels);
    forall x | 0 <= x < |sec.relocs| && IsLocal(sec.relocs[x], s, layout.labels)
      ensures sec.relocs[x].offset != p
    {
      var j := pass.sites[(s, x)];
      assert Belongs(nodes, layout.lengths, s, sec.relocs[x], j);
      if sec.relocs[x].offset == p {
        SlotOwner(nodes, layout.lengths, i, j, p);
      }
    }
  }

  lemma PatchSparesRange(
    nodes: seq<Node>, layout: Layout, pass: Pass, s: nat, i: nat, bytes: seq<Byte>)
    requires i < |nodes| == |layout.lengths| && s < |pass.sections|
    requires SitesInv(nodes, |nodes|, layout.lengths, pass.sections, pass.sites)
    requires Ordered(pass.sections) && FieldsInside(pass.sections[s])
    requires Fills(nodes, layout, i, s, |bytes|) && !nodes[i].LoopNode?
    requires Placed(pass.sections, s, OffsetAt(nodes, layout.lengths, i), bytes)
    ensures var at := OffsetAt(nodes, layout.lengths, i);
            Resolved(pass.sections[s], s, layout.labels).data[at..at + |bytes|] == bytes
  {
    hide Walk, SitesInv, Patched, Retained;
    var at := OffsetAt(nodes, layout.lengths, i);
    var data := Resolved(pass.sections[s], s, layout.labels).data;
    forall p | at <= p < at + |bytes|
      ensures data[p] == bytes[p - at]
    {
      PatchSpares(nodes, layout, pass, s, i, |bytes|, p);
      assert pass.sections[s].data[p] == pass.sections[s].data[at..at + |bytes|][p - at];
    }
  }

  /** A relocation that is not a local LOOP field survives. */
  lemma RelocSurvives(sec: Section, s: nat, labels: map<Name, (nat, nat)>, reloc: Reloc)
    requires FieldsInside(sec) && Increasing(sec.relocs, |sec.data|)
    requires reloc in sec.relocs && !IsLocal(reloc, s, labels)
    ensures reloc in Resolved(sec, s, labels).relocs
  {
    hide Patched, Retained;
    RetainedExactly(sec.relocs, |sec.relocs|, s, labels, |sec.data|);
    assert sec.relocs[..|sec.relocs|] == sec.relocs;
  }

  /** A pass that repeats the layout it was encoded against. */
  ghost predicate Settled(nodes: seq<Node>, forced: set<nat>, maxOutput: nat, pass: Pass) {
    && ValidProgram(nodes)
    && HintFits(Some(pass.layout), |nodes|)
    && IsPass(nodes, Some(pass.layout), forced, maxOutput, Success(pass))
  }

  ghost predicate SettledInv(nodes: seq<Node>, forced: set<nat>, pass: Pass) {
    && ValidProgram(nodes)
    && |pass.layout.lengths| == |nodes|
    && pass.layout == LayoutOf(nodes, pass.layout.lengths)
    && CodeInv(nodes, |nodes|, pass.layout.lengths, pass.layout, forced, pass.sections)
    && SitesInv(nodes, |nodes|, pass.layout.lengths, pass.sections, pass.sites)
    && Ordered(pass.sections)
    && KindsOf(pass.sections) == Walk(nodes, pass.layout.lengths, |nodes|).kinds
  }

  lemma SettledHolds(nodes: seq<Node>, forced: set<nat>, maxOutput: nat, pass: Pass)
    requires Settled(nodes, forced, maxOutput, pass)
    ensures SettledInv(nodes, forced, pass)
  {
    hide Run, LayoutOf, CodeInv, SitesInv, Walk;
    var hint := Some(pass.layout);
    PassLayout(nodes, hint, forced, maxOutput, pass);
    RunLayout(nodes, |nodes|, hint, forced, maxOutput);
    RunCode(nodes, |nodes|, pass.layout, forced, maxOutput);
    RunRelocs(nodes, |nodes|, hint, forced, maxOutput);
    var st := Run(nodes, |nodes|, hint, forced, maxOutput).value;
    assert CursorOf(st).kinds == KindsOf(pass.sections);
  }

  /** What the whole output of a settled pass consists of. */
  ghost predicate SettledOutput(nodes: seq<Node>, forced: set<nat>, pass: Pass) {
    && |pass.layout.lengths| == |nodes| && HintFits(Some(pass.layout), |nodes|)
    && SectionsLaidOut(nodes, pass.layout, pass.sections)
    && FillInv(nodes, |nodes|, pass.layout.lengths, pass.sections)
    && AlignInv(nodes, |nodes|, pass.layout.lengths, pass.sections)
    && SourcesInv(nodes, |nodes|, pass.layout.lengths, pass.layout, forced, pass.sections, pass.sites)
  }

  lemma SettledOutputHolds(nodes: seq<Node>, forced: set<nat>, maxOutput: nat, pass: Pass)
    requires Settled(nodes, forced, maxOutput, pass)
    ensures SettledOutput(nodes, forced, pass)
  {
    hide Run, LayoutOf, FillInv, AlignInv, SourcesInv, Walk, OffsetAt;
    var hint := Some(pass.layout);
    PassLayout(nodes, hint, forced, maxOutput, pass);
    RunLayout(nodes, |nodes|, hint, forced, maxOutput);
    RunFills(nodes, |nodes|, hint, forced, maxOutput);
    RunAlignments(nodes, |nodes|, hint, forced, maxOutput);
    RunSources(nodes, |nodes|, pass.layout, forced, maxOutput);
    CursorSections(nodes, pass.layout, Run(nodes, |nodes|, hint, forced, maxOutput).value);
  }

  lemma CursorSections(nodes: seq<Node>, layout: Layout, st: State)
    requires |nodes| == |layout.lengths| && LayoutInv(nodes, |nodes|, st) && st.lengths == layout.lengths
    ensures SectionsLaidOut(nodes, layout, st.sections)
  {
    hide Walk, OffsetAt;
    var end := Walk(nodes, layout.lengths, |nodes|);
    assert CursorOf(st) == end;
    forall s: nat | s < |st.sections|
      ensures Bounded(st.sections[s]) && SizesOf(st.sections)[s] == st.sections[s].Size() == end.sizes[s]
    {
      assert CursorOf(st).sizes == SizesOf(st.sections);
    }
  }

  ghost predicate AllResolved(old_: seq<Section>, labels: map<Name, (nat, nat)>, new_: seq<Section>) {
    && |new_| == |old_|
    && forall s | 0 <= s < |old_| ::
         FieldsInside(old_[s]) && new_[s] == Resolved(old_[s], s, labels)
  }

  /** The kind of a section never changes after it was created. */
  lemma {:induction false} KindsStay(nodes: seq<Node>, lengths: seq<nat>, i: nat, j: nat, s: nat)
    requires i <= j <= |nodes| == |lengths| && s < |Walk(nodes, lengths, i).kinds|
    ensures s < |Walk(nodes, lengths, j).kinds|
    ensures Walk(nodes, lengths, j).kinds[s] == Walk(nodes, lengths, i).kinds[s]
  {
    hide Advance;
    if i < j {
      KindsStay(nodes, lengths, i, j - 1, s);
    }
  }

  /** The bytes and relocations of a node that is not a LOOP reach the output. */
  lemma CodeSurvives(
    nodes: seq<Node>, forced: set<nat>, pass: Pass, sections: seq<Section>, i: nat, code: Encoding)
    requires SettledInv(nodes, forced, pass) && AllResolved(pass.sections, pass.layout.labels, sections)
    requires i < |nodes| && HasCode(nodes[i]) && !nodes[i].LoopNode?
    requires NodeEncoding(nodes, pass.layout.lengths, i, pass.layout, forced) == Success(code)
    requires !IsZeroFill(nodes, pass.layout.lengths, i)
    requires forall r | r in code.relocs :: !r.kind.Relative8?
    ensures var s, at := SectionAt(nodes, pass.layout.lengths, i), OffsetAt(nodes, pass.layout.lengths, i);
            Placed(sections, s, at, code.bytes) && Recorded(sections, s, at, code.relocs)
  {
    hide Walk, SitesInv, EncodeInstruction, Patched, Retained, ValidProgram, Increasing;
    var layout := pass.layout;
    var s, at := SectionAt(nodes, layout.lengths, i), OffsetAt(nodes, layout.lengths, i);
    assert CodeAt(nodes, layout.lengths, i, layout, forced, pass.sections);
    PatchSparesRange(nodes, layout, pass, s, i, code.bytes);
    forall r | r in code.relocs
      ensures r.(offset := r.offset + at) in sections[s].relocs
    {
      RelocSurvives(pass.sections[s], s, layout.labels, r.(offset := r.offset + at));
    }
  }

  lemma JumpLinked(form: BranchForm, target: Name, cx: Context, data: seq<Byte>)
    requires IsForm(form) && EncodeJump(form, target, cx).Success?
    requires var code := EncodeJump(form, target, cx).value.bytes;
             && cx.previousLength == |code|
             && cx.offset + |code| <= |data| && data[cx.offset..cx.offset + |code|] == code
    ensures var far := Encoding(form.near + LittleEndian(0, 4), [Reloc(|form.near|, target, Branch32, -4)]);
            if target in cx.labels && cx.labels[target].0 == cx.section then
              JumpReaches(form, data, cx.offset, cx.previousLength, cx.labels[target].1)
            else
              EncodeJump(form, target, cx).value == far
  {
    hide LittleEndian, JumpReaches;
    if target in cx.labels && cx.labels[target].0 == cx.section {
      EncodedJumpReaches(form, target, cx, data);
    }
  }

  lemma BranchLinked(
    nodes: seq<Node>, forced: set<nat>, pass: Pass, sections: seq<Section>, i: nat)
    requires SettledInv(nodes, forced, pass) && AllResolved(pass.sections, pass.layout.labels, sections)
    requires i < |nodes| && nodes[i].BranchNode?
    ensures NodeLinked(nodes, pass.layout, sections, i)
  {
    hide Walk, SitesInv, EncodeJump, AllResolved, JumpReaches, LittleEndian;
    var layout := pass.layout;
    assert CodeAt(nodes, layout.lengths, i, layout, forced, pass.sections);
    assert ValidNode(nodes[i]);
    var form, target := nodes[i].form, nodes[i].target;
    var cx := CodeContext(nodes, layout.lengths, i, layout, forced);
    var code := EncodeJump(form, target, cx).value;
    JumpCode(form, target, cx);
    CodeSurvives(nodes, forced, pass, sections, i, code);
    JumpLinked(form, target, cx, sections[cx.section].data);
    if !IsLocalTarget(nodes, layout, i, target) {
      var r := code.relocs[0];
      assert r in code.relocs;
      assert r.(offset := r.offset + cx.offset) == Reloc(cx.offset + |form.near|, target, Branch32, -4);
    }
  }

  lemma JumpCode(form: BranchForm, target: Name, cx: Context)
    requires EncodeJump(form, target, cx).Success?
    ensures var code := EncodeJump(form, target, cx).value;
            forall r | r in code.relocs :: !r.kind.Relative8?
  {
    hide LittleEndian;
  }

  lemma DataLinked(
    nodes: seq<Node>, forced: set<nat>, pass: Pass, sections: seq<Section>, i: nat)
    requires SettledInv(nodes, forced, pass) && AllResolved(pass.sections, pass.layout.labels, sections)
    requires i < |nodes| && (nodes[i].FixedNode? || nodes[i].DataNode?)
    ensures NodeLinked(nodes, pass.layout, sections, i)
  {
    hide Walk, SitesInv, AllResolved;
    assert CodeAt(nodes, pass.layout.lengths, i, pass.layout, forced, pass.sections);
    assert ValidNode(nodes[i]);
    var code := NodeEncoding(nodes, pass.layout.lengths, i, pass.layout, forced).value;
    SectionExists(nodes, forced, pass, sections, i);
    if !IsZeroFill(nodes, pass.layout.lengths, i) {
      CodeSurvives(nodes, forced, pass, sections, i, code);
    }
  }

  lemma SectionExists(
    nodes: seq<Node>, forced: set<nat>, pass: Pass, sections: seq<Section>, i: nat)
    requires SettledInv(nodes, forced, pass) && AllResolved(pass.sections, pass.layout.labels, sections)
    requires i < |nodes|
    ensures var c := Walk(nodes, pass.layout.lengths, i);
            c.current < |sections| && sections[c.current].kind == c.kinds[c.current]
  {
    hide Walk, SitesInv, CodeInv, Patched, Retained;
    var s := SectionAt(nodes, pass.layout.lengths, i);
    KindsStay(nodes, pass.layout.lengths, i, |nodes|, s);
    assert KindsOf(pass.sections)[s] == pass.sections[s].kind;
  }

  /** The patched field of a local LOOP reaches its label; a distant one keeps
      its zero byte and its relocation. */
  lemma LoopLinked(
    nodes: seq<Node>, forced: set<nat>, pass: Pass, sections: seq<Section>, i: nat)
    requires SettledInv(nodes, forced, pass) && AllResolved(pass.sections, pass.layout.labels, sections)
    requires AllReachable(pass.sections, pass.layout.labels)
    requires i < |nodes| && nodes[i].LoopNode?
    ensures NodeLinked(nodes, pass.layout, sections, i)
  {
    hide Walk, SitesInv, Increasing, Patched, Retained, ValidProgram;
    var layout := pass.layout;
    assert CodeAt(nodes, layout.lengths, i, layout, forced, pass.sections);
    var s, at := SectionAt(nodes, layout.lengths, i), OffsetAt(nodes, layout.lengths, i);
    var sec := pass.sections[s];
    var field := LoopField(nodes[i].target, at);
    assert EncodeLoop(nodes[i].target).relocs[0] in EncodeLoop(nodes[i].target).relocs;
    assert field in sec.relocs;
    assert sec.data[at] == 0xE2 && sec.data[at + 1] == 0 by {
      assert sec.data[at..at + 2] == [0xE2, 0];
      assert sec.data[at] == sec.data[at..at + 2][0] && sec.data[at + 1] == sec.data[at..at + 2][1];
    }
    PatchSpares(nodes, layout, pass, s, i, 2, at);
    var x: nat :| x < |sec.relocs| && sec.relocs[x] == field;
    LoopByte(sec, s, layout.labels, x);
    if IsLocal(field, s, layout.labels) {
      assert Reachable(sec.relocs[x], s, layout.labels);
    } else {
      RelocSurvives(sec, s, layout.labels, field);
    }
  }

  /** What resolving does to the byte of one LOOP field. */
  lemma LoopByte(sec: Section, s: nat, labels: map<Name, (nat, nat)>, x: nat)
    requires FieldsInside(sec) && Increasing(sec.relocs, |sec.data|) && x < |sec.relocs|
    ensures Resolved(sec, s, labels).data[sec.relocs[x].offset] ==
      if IsLocal(sec.relocs[x], s, labels) then LoopDistance(sec.relocs[x], labels) % 256
      else sec.data[sec.relocs[x].offset]
  {
    PatchedBytes(sec.data, sec.relocs, |sec.relocs|, s, labels);
  }

  /** The form of a branch in a settled layout: a branch to a label of its section that
      is not pinned is short exactly when its displacement would still fit if the branch
      itself were short; every other branch is near. */
  lemma SettledForms(nodes: seq<Node>, forced: set<nat>, pass: Pass, i: nat)
    requires SettledInv(nodes, forced, pass) && i < |nodes| && nodes[i].BranchNode?
    ensures var layout, form, target := pass.layout, nodes[i].form, nodes[i].target;
      var at, length := OffsetAt(nodes, layout.lengths, i), layout.lengths[i];
      && (length == 2 || length == form.NearLength())
      && (length == 2 <==>
           && form.short.Some? && i !in forced && IsLocalTarget(nodes, layout, i, target)
           && var goal := layout.labels[target].1;
              var shrunk := if goal > at then goal - (length - 2) else goal;
              -128 <= shrunk - (at + 2) <= 127)
  {
    hide Walk, SitesInv, LittleEndian;
    var layout := pass.layout;
    assert CodeAt(nodes, layout.lengths, i, layout, forced, pass.sections);
    assert ValidNode(nodes[i]);
  }

  /** Resolving LOOP fields does not touch padding and reserved space. */
  lemma FillSurvives(nodes: seq<Node>, forced: set<nat>, pass: Pass, sections: seq<Section>, i: nat)
    requires SettledInv(nodes, forced, pass) && AllResolved(pass.sections, pass.layout.labels, sections)
    requires i < |nodes| && IsFill(nodes[i]) && FilledAt(nodes, pass.layout.lengths, i, pass.sections)
    ensures FilledAt(nodes, pass.layout.lengths, i, sections)
  {
    hide Walk, SitesInv, CodeInv, LayoutOf, Patched, Retained, ValidProgram, Increasing, Padding;
    var layout := pass.layout;
    var c := Walk(nodes, layout.lengths, i);
    var s, from, to := c.current, OffsetAt(nodes, layout.lengths, i), OffsetAt(nodes, layout.lengths, i + 1);
    if c.kinds[s] != Bss {
      CurrentAfter(nodes, layout.lengths, i);
      forall p | from <= p < to ensures sections[s].data[p] == pass.sections[s].data[p] {
        PatchSpares(nodes, layout, pass, s, i, to - from, p);
      }
    }
  }

  /** What is left for the linker comes from the program. */
  lemma RelocOwned(nodes: seq<Node>, forced: set<nat>, pass: Pass, sections: seq<Section>, s: nat, x: nat)
    requires SettledInv(nodes, forced, pass) && AllResolved(pass.sections, pass.layout.labels, sections)
    requires SettledOutput(nodes, forced, pass)
    requires s < |sections| && x < |sections[s].relocs|
    ensures HasOwner(nodes, pass.layout, s, sections[s].relocs[x])
  {
    hide Walk, SitesInv, CodeInv, LayoutOf, Patched, Retained, ValidProgram, EncodeInstruction, Increasing,
         FillInv, AlignInv, SectionsLaidOut, RelocOwner, Sourced, IsLocal;
    var sec, labels, reloc := pass.sections[s], pass.layout.labels, sections[s].relocs[x];
    assert Increasing(sec.relocs, |sec.data|);
    RetainedExactly(sec.relocs, |sec.relocs|, s, labels, |sec.data|);
    assert sections[s].relocs == Retained(sec.relocs, |sec.relocs|, s, labels);
    assert reloc in sections[s].relocs && sec.relocs[..|sec.relocs|] == sec.relocs;
    assert reloc in sec.relocs && !IsLocal(reloc, s, labels);
    var y: nat :| y < |sec.relocs| && sec.relocs[y] == reloc;
    SourceOwns(nodes, pass.layout, forced, s, reloc, pass.sites[(s, y)]);
  }

  lemma SourceOwns(nodes: seq<Node>, layout: Layout, forced: set<nat>, s: nat, reloc: Reloc, j: nat)
    requires |nodes| == |layout.lengths| && HintFits(Some(layout), |nodes|)
    requires Sourced(nodes, layout.lengths, layout, forced, s, reloc, j) && !IsLocal(reloc, s, layout.labels)
    ensures RelocOwner(nodes, layout, s, reloc, j)
  {
    hide Walk, LittleEndian;
  }

  lemma AllNodesLinked(nodes: seq<Node>, forced: set<nat>, pass: Pass, sections: seq<Section>)
    requires SettledInv(nodes, forced, pass) && AllResolved(pass.sections, pass.layout.labels, sections)
    requires AllReachable(pass.sections, pass.layout.labels) && |pass.layout.lengths| == |nodes|
    ensures forall i | 0 <= i < |nodes| && HasCode(nodes[i]) :: NodeLinked(nodes, pass.layout, sections, i)
  {
    hide SettledInv, NodeLinked, AllResolved, AllReachable;
    forall i | 0 <= i < |nodes| && HasCode(nodes[i])
      ensures NodeLinked(nodes, pass.layout, sections, i)
    {
      if nodes[i].LoopNode? {
        LoopLinked(nodes, forced, pass, sections, i);
      } else if nodes[i].BranchNode? {
        BranchLinked(nodes, forced, pass, sections, i);
      } else {
        DataLinked(nodes, forced, pass, sections, i);
      }
    }
  }

  lemma AllFillsSurvive(nodes: seq<Node>, forced: set<nat>, pass: Pass, sections: seq<Section>)
    requires SettledInv(nodes, forced, pass) && AllResolved(pass.sections, pass.layout.labels, sections)
    requires FillInv(nodes, |nodes|, pass.layout.lengths, pass.sections)
    ensures FillInv(nodes, |nodes|, pass.layout.lengths, sections)
  {
    hide LayoutOf, CodeInv, SitesInv, FilledAt, AllResolved;
    forall i: nat | i < |nodes| && IsFill(nodes[i])
      ensures FilledAt(nodes, pass.layout.lengths, i, sections)
    {
      FillSurvives(nodes, forced, pass, sections, i);
    }
  }

  lemma AllRelocsOwned(nodes: seq<Node>, forced: set<nat>, pass: Pass, sections: seq<Section>)
    requires SettledInv(nodes, forced, pass) && AllResolved(pass.sections, pass.layout.labels, sections)
    requires SettledOutput(nodes, forced, pass)
    ensures RelocsOwned(nodes, pass.layout, sections)
  {
    hide LayoutOf, CodeInv, SitesInv, AllResolved, SettledOutput, HasOwner;
    forall s, x | 0 <= s < |sections| && 0 <= x < |sections[s].relocs|
      ensures HasOwner(nodes, pass.layout, s, sections[s].relocs[x])
    {
      RelocOwned(nodes, forced, pass, sections, s, x);
    }
  }

  lemma SettledLinked(nodes: seq<Node>, forced: set<nat>, maxOutput: nat, pass: Pass, sections: seq<Section>)
    requires Settled(nodes, forced, maxOutput, pass)
    requires AllResolved(pass.sections, pass.layout.labels, sections)
    requires AllReachable(pass.sections, pass.layout.labels)
    ensures Linked(nodes, pass.layout, sections)
  {
    hide IsPass, NodeLinked, AllResolved, CodeInv, SitesInv, LayoutOf, AllReachable, FillInv, SourcesInv, RelocsOwned,
         SectionsLaidOut, AlignInv;
    SettledHolds(nodes, forced, maxOutput, pass);
    SettledOutputHolds(nodes, forced, maxOutput, pass);
    AllNodesLinked(nodes, forced, pass, sections);
    AllFillsSurvive(nodes, forced, pass, sections);
    AllRelocsOwned(nodes, forced, pass, sections);
    ResolvedSections(nodes, pass, sections);
  }

  lemma ResolvedSections(nodes: seq<Node>, pass: Pass, sections: seq<Section>)
    requires |nodes| == |pass.layout.lengths| && AllResolved(pass.sections, pass.layout.labels, sections)
    requires SectionsLaidOut(nodes, pass.layout, pass.sections)
    requires AlignInv(nodes, |nodes|, pass.layout.lengths, pass.sections)
    ensures SectionsLaidOut(nodes, pass.layout, sections)
    ensures AlignInv(nodes, |nodes|, pass.layout.lengths, sections)
  {
    hide Walk, Patched, Retained, SectionAt;
    assert NamesOf(sections) == NamesOf(pass.sections);
    assert KindsOf(sections) == KindsOf(pass.sections);
    forall s: nat | s < |sections| ensures AlignedLike(nodes, |nodes|, pass.layout.lengths, sections, s) {
      assert AlignedLike(nodes, |nodes|, pass.layout.lengths, pass.sections, s);
    }
  }

  lemma RunGrows(nodes: seq<Node>, maxOutput: nat, run: seq<Pass>, next: Pass)
    requires IsRun(nodes, maxOutput, run)
    requires if run == [] then IsPass(nodes, None, {}, maxOutput, Success(next))
             else Follows(nodes, maxOutput, run[|run| - 1], next)
    ensures IsRun(nodes, maxOutput, run + [next])
  {
    hide IsPass, Follows;
    var longer := run + [next];
    forall p | 0 <= p < |longer| - 1
      ensures Follows(nodes, maxOutput, longer[p], longer[p + 1])
    {
      if p < |run| - 1 {
        assert Follows(nodes, maxOutput, run[p], run[p + 1]);
      }
    }
  }

  /** A pass after a run, encoded against the layout of the run's last pass. */
  lemma HintOfRun(nodes: seq<Node>, maxOutput: nat, run: seq<Pass>)
    requires IsRun(nodes, maxOutput, run) && run != []
    ensures HintFits(Some(run[|run| - 1].layout), |nodes|)
  {
    hide IsPass, OffsetAt, Walk;
    if |run| == 1 {
      PassLayout(nodes, None, {}, maxOutput, run[0]);
    } else {
      var p := |run| - 2;
      assert Follows(nodes, maxOutput, run[p], run[p + 1]);
      PassLayout(nodes, Some(run[p].layout), run[p].forced, maxOutput, run[p + 1]);
    }
  }

  lemma {:induction false} RunErrorsHaveSites(
    nodes: seq<Node>, k: nat, hint: Option<Layout>, forced: set<nat>, maxOutput: nat)
    requires k <= |nodes| && HintFits(hint, |nodes|)
    ensures var r := Run(nodes, k, hint, forced, maxOutput); r.Failure? ==> r.error.At?
  {
    hide Step;
    if k > 0 {
      RunErrorsHaveSites(nodes, k - 1, hint, forced, maxOutput);
    }
  }

  lemma PassErrorsHaveSites(
    nodes: seq<Node>, hint: Option<Layout>, forced: set<nat>, maxOutput: nat, error: AsmError)
    requires HintFits(hint, |nodes|) && IsPass(nodes, hint, forced, maxOutput, Failure(error))
    ensures error.At?
  {
    hide Run;
    RunErrorsHaveSites(nodes, |nodes|, hint, forced, maxOutput);
  }

  /** Fill in the LOOP fields of a settled pass. */
  method Finish(nodes: seq<Node>, ghost forced: set<nat>, ghost maxOutput: nat, pass: Pass)
    returns (r: Result<seq<Section>, AsmError>)
    requires Settled(nodes, forced, maxOutput, pass)
    ensures r.Success? ==>
      && Linked(nodes, pass.layout, r.value)
      && AllReachable(pass.sections, pass.layout.labels)
      && AllResolved(pass.sections, pass.layout.labels, r.value)
    ensures r.Failure? ==>
      SitesCover(pass.sections, pass.sites)
      && FirstUnreachable(pass.sections, pass.layout.labels, pass.sites, r.error)
      && r.error.At?
  {
    hide IsPass, Linked, SettledInv, LayoutOf;
    SettledSections(nodes, forced, maxOutput, pass);
    var encoded := new EncodedPass(pass);
    var error := encoded.ResolveLoops();
    if error.Some? {
      return Failure(error.value);
    }
    SettledLinked(nodes, forced, maxOutput, pass, encoded.sections);
    return Success(encoded.sections);
  }

  lemma SettledSections(nodes: seq<Node>, forced: set<nat>, maxOutput: nat, pass: Pass)
    requires Settled(nodes, forced, maxOutput, pass)
    ensures SitesCover(pass.sections, pass.sites)
    ensures forall s | 0 <= s < |pass.sections| :: FieldsInside(pass.sections[s])
  {
    SettledHolds(nodes, forced, maxOutput, pass);
    hide IsPass, CodeInv, Walk, LayoutOf, Belongs;
    assert Ordered(pass.sections);
    forall s | 0 <= s < |pass.sections|
      ensures FieldsInside(pass.sections[s])
    {
      assert Increasing(pass.sections[s].relocs, |pass.sections[s].data|);
    }
  }

  /** The pass after `run` has result `next`. */
  ghost predicate NextPass(nodes: seq<Node>, maxOutput: nat, run: seq<Pass>, next: Result<Pass, AsmError>) {
    if run == [] then IsPass(nodes, None, {}, maxOutput, next)
    else
      var last := run[|run| - 1];
      HintFits(Some(last.layout), |nodes|)
      && IsPass(nodes, Some(last.layout), last.forced, maxOutput, next)
  }

  /** The last pass of `run` is the first to repeat a layout. */
  ghost predicate JustSettled(run: seq<Pass>) {
    && |run| >= 2
    && KeepsMoving(run[..|run| - 1])
    && run[|run| - 2].layout == run[|run| - 1].layout
  }

  /** How relaxation ends after `run`: with the resolved last pass, with the
      error of the pass after it or of its first unreachable LOOP, or without
      having repeated a layout. */
  ghost predicate Outcome(
    nodes: seq<Node>, maxOutput: nat, maxPasses: nat, run: seq<Pass>, r: Result<seq<Section>, AsmError>)
  {
    && IsRun(nodes, maxOutput, run) && |run| <= maxPasses
    && match r
       case Success(sections) =>
         && JustSettled(run)
         && var last := run[|run| - 1];
            && AllReachable(last.sections, last.layout.labels)
            && AllResolved(last.sections, last.layout.labels, sections)
       case Failure(DidNotConverge(passes)) => passes == maxPasses == |run| && KeepsMoving(run)
       case Failure(error) =>
         if JustSettled(run) then
           var last := run[|run| - 1];
           && SitesCover(last.sections, last.sites)
           && FirstUnreachable(last.sections, last.layout.labels, last.sites, error)
         else
           |run| < maxPasses && KeepsMoving(run) && NextPass(nodes, maxOutput, run, Failure(error))
  }

  lemma RunExtended(nodes: seq<Node>, maxOutput: nat, run: seq<Pass>, next: Pass)
    requires IsRun(nodes, maxOutput, run) && KeepsMoving(run)
    requires NextPass(nodes, maxOutput, run, Success(next))
    ensures IsRun(nodes, maxOutput, run + [next])
    ensures HintFits(Some(next.layout), |nodes|)
    ensures if run != [] && run[|run| - 1].layout == next.layout then JustSettled(run + [next])
            else KeepsMoving(run + [next])
  {
    hide IsPass;
    RunGrows(nodes, maxOutput, run, next);
    assert (run + [next])[..|run|] == run;
    HintOfRun(nodes, maxOutput, run + [next]);
  }

  /** Encode until the layout repeats. On success every branch of the output
      reaches its label; relaxation never gives up within 2B + 2 passes. */
  method EncodeWithLimits(nodes: seq<Node>, maxOutput: nat, maxPasses: nat)
    returns (r: Result<seq<Section>, AsmError>, ghost run: seq<Pass>)
    requires ValidProgram(nodes)
    ensures Outcome(nodes, maxOutput, maxPasses, run, r)
    ensures r.Success? ==> Linked(nodes, run[|run| - 1].layout, r.value)
    ensures maxPasses >= 2 * Branches(nodes, |nodes|) + 2 ==> !(r.Failure? && r.error.DidNotConverge?)
  {
    hide IsPass, LayoutOf, Linked, AllReachable, AllResolved;
    var previous: Option<Layout>, forced: set<nat> := None, {};
    run := [];
    for pass := 0 to maxPasses
      invariant IsRun(nodes, maxOutput, run) && KeepsMoving(run) && |run| == pass
      invariant previous == if run == [] then None else Some(run[|run| - 1].layout)
      invariant forced == if run == [] then {} else run[|run| - 1].forced
      invariant HintFits(previous, |nodes|)
    {
      var next := EncodeOnce(nodes, previous, forced, maxOutput);
      if next.Failure? {
        PassErrorsHaveSites(nodes, previous, forced, maxOutput, next.error);
        return Failure(next.error), run;
      }
      RunExtended(nodes, maxOutput, run, next.value);
      run := run + [next.value];
      if previous == Some(next.value.layout) {
        r := Finish(nodes, forced, maxOutput, next.value);
        return;
      }
      previous, forced := Some(next.value.layout), next.value.forced;
    }
    RelaxationSettles(nodes, maxOutput, run);
    return Failure(DidNotConverge(maxPasses)), run;
  }
}
