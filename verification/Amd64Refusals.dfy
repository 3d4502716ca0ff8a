/** When a pass refuses a node, said in terms of the program before that node. */
module Amd64Refusals {
  import opened AsmSections
  import opened Bits
  import opened Wrappers
  import opened Amd64Program
  import opened Amd64Layout
  import opened Amd64Encode
  import opened Amd64Invariants
  import opened Amd64LayoutProof
  import opened Amd64CodeProof

  ghost predicate LabelBefore(nodes: seq<Node>, k: nat, name: Name)
    requires k <= |nodes|
  {
    exists j: nat :: j < k && nodes[j] == LabelNode(name)
  }

  ghost predicate ExternBefore(nodes: seq<Node>, k: nat, name: Name)
    requires k <= |nodes|
  {
    exists j: nat :: j < k && nodes[j] == ExternNode(name)
  }

  /** The bytes in the first `n` sections that hold bytes. */
  ghost function Materialized(c: Cursor, n: nat): nat
    requires c.Valid() && n <= |c.sizes|
  {
    if n == 0 then 0 else Materialized(c, n - 1) + if c.kinds[n - 1] == Bss then 0 else c.sizes[n - 1]
  }

  /** What the tables of a pass say about the nodes it has seen. */
  ghost predicate TablesInv(nodes: seq<Node>, k: nat, st: State)
    requires k <= |nodes| && st.Sound()
  {
    && (forall name :: name in st.labels <==> LabelBefore(nodes, k, name))
    && (forall name :: name in st.externs <==> ExternBefore(nodes, k, name))
    && st.materialized == Materialized(CursorOf(st), |st.sections|)
    && (forall s | 0 <= s < |st.sections| :: st.sections[s].Size() < WORD_64)
    && (forall s, t | 0 <= s < t < |st.sections| :: st.sections[s].name != st.sections[t].name)
  }

  /** The length of a branch, or nothing if its target is too far even for the near form. */
  ghost function BranchLength(form: BranchForm, target: Name, cx: Context): Option<nat> {
    if target !in cx.labels || cx.labels[target].0 != cx.section then Some(form.NearLength())
    else
      var goal := cx.labels[target].1;
      var shrink := if goal > cx.offset && cx.previousLength > 2 then cx.previousLength - 2 else 0;
      if form.short.Some? && !cx.forceNear && -128 <= goal - shrink - (cx.offset + 2) <= 127 then Some(2)
      else if -0x8000_0000 <= goal - (cx.offset + form.NearLength()) <= 0x7fff_ffff then Some(form.NearLength())
      else None
  }

  /** Adding bytes to a section of `size` bytes, with `total` bytes in all. */
  ghost function OutputRefusal(size: nat, total: nat, extra: nat, maxOutput: nat): Option<ErrorKind> {
    if size + extra >= WORD_64 || total + extra >= WORD_64 then Some(SizeOverflow)
    else if total + extra > maxOutput || size + extra >= 0x8000_0000_0000_0000 then Some(OutputLimit)
    else None
  }

  ghost function SpaceRefusal(c: Cursor, extra: nat, maxOutput: nat): Option<ErrorKind>
    requires c.Valid()
  {
    var size := c.sizes[c.current];
    if c.kinds[c.current] == Bss then if size + extra >= WORD_64 then Some(SizeOverflow) else None
    else OutputRefusal(size, Materialized(c, |c.sizes|), extra, maxOutput)
  }

  ghost predicate IsWordPower(value: int) {
    exists e: nat :: e < 64 && value == Pow2(e)
  }

  /** The refusal of node `k`, if any: `c` is the layout before it, and `cx` what the
      encoder of a branch looks at. */
  ghost function Refusal(nodes: seq<Node>, k: nat, c: Cursor, cx: Context, maxOutput: nat): Option<ErrorKind>
    requires k < |nodes| && c.Valid()
  {
    var inBss := c.kinds[c.current] == Bss;
    match nodes[k]
    case SectionNode(name, kind) =>
      if name in c.names then
        if kind.Some? && exists s :: 0 <= s < |c.names| && c.names[s] == name && c.kinds[s] != kind.value
        then Some(IncompatibleSection(name)) else None
      else if kind.Some? && name in [".text", ".data", ".rodata", ".bss"] && kind.value != StandardKind(name)
      then Some(StandardSectionKind(name)) else None
    case LabelNode(name) =>
      if ExternBefore(nodes, k, name) then Some(LabelConflictsWithExtern(name))
      else if LabelBefore(nodes, k, name) then Some(DuplicateLabel(name))
      else None
    case ExternNode(name) => if LabelBefore(nodes, k, name) then Some(ExternAlreadyDefined(name)) else None
    case AlignNode(value) =>
      if !IsWordPower(value) then Some(BadAlignment)
      else if c.sizes[c.current] + Padding(c.sizes[c.current], value) >= WORD_64 then Some(SizeOverflow)
      else SpaceRefusal(c, Padding(c.sizes[c.current], value), maxOutput)
    case DataNode(bytes, relocs) =>
      if inBss && (relocs != [] || exists b :: b in bytes && b != 0) then Some(BssInitializer)
      else SpaceRefusal(c, |bytes|, maxOutput)
    case ReserveNode(size) => SpaceRefusal(c, size, maxOutput)
    case FixedNode(bytes, _) => if inBss then Some(InstructionInBss) else SpaceRefusal(c, |bytes|, maxOutput)
    case LoopNode(_) => if inBss then Some(InstructionInBss) else SpaceRefusal(c, 2, maxOutput)
    case BranchNode(form, target) =>
      if inBss then Some(InstructionInBss)
      else if BranchLength(form, target, cx).None? then Some(NearOutOfRange(target))
      else SpaceRefusal(c, BranchLength(form, target, cx).value, maxOutput)
  }

  /** The kinds that standard section names stand for. */
  function StandardKind(name: Name): SectionKind {
    if name == ".text" then Text else if name == ".rodata" then ReadOnlyData else if name == ".bss" then Bss else Data
  }

  lemma PowerBelowWord(value: int)
    ensures IsWordPower(value) <==> 0 < value < WORD_64 && IsPowerOfTwo(value)
  {
    hide IsPowerOfTwo, Pow2;
    Pow2At64();
    if 0 < value < WORD_64 && IsPowerOfTwo(value) {
      var e := PowerOfTwoExponent(value);
      if e >= 64 {
        Pow2Monotone(64, e);
      }
    }
    forall e: nat | e < 64 && value == Pow2(e)
      ensures 0 < value < WORD_64 && IsPowerOfTwo(value)
    {
      Pow2IsPowerOfTwo(e);
      Pow2Monotone(e + 1, 64);
      PowStep(e);
    }
  }

  lemma PowStep(e: nat)
    ensures Pow2(e) < Pow2(e + 1)
  {
  }

  lemma EmitRefuses(st: State, node: nat, code: Encoding, maxOutput: nat)
    requires st.Sound() && st.sections[st.current].kind != Bss && Bounded(st.sections[st.current])
    requires st.materialized == Materialized(CursorOf(st), |st.sections|)
    ensures Emit(st, node, code, maxOutput).Failure? <==> SpaceRefusal(CursorOf(st), |code.bytes|, maxOutput).Some?
    ensures Emit(st, node, code, maxOutput).Failure? ==>
      SpaceRefusal(CursorOf(st), |code.bytes|, maxOutput) == Some(Emit(st, node, code, maxOutput).error)
  {
    hide Materialized, SitesCover;
  }

  lemma GrowRefuses(st: State, extra: nat, maxOutput: nat)
    requires st.Sound() && st.sections[st.current].kind == Bss && Bounded(st.sections[st.current])
    ensures GrowBss(st, extra).Failure? <==> SpaceRefusal(CursorOf(st), extra, maxOutput).Some?
    ensures GrowBss(st, extra).Failure? ==>
      SpaceRefusal(CursorOf(st), extra, maxOutput) == Some(GrowBss(st, extra).error)
  {
    hide Materialized, SitesCover;
  }

  lemma BranchRefuses(form: BranchForm, target: Name, cx: Context)
    ensures EncodeJump(form, target, cx).Failure? <==> BranchLength(form, target, cx).None?
    ensures EncodeJump(form, target, cx).Failure? ==> EncodeJump(form, target, cx).error == NearOutOfRange(target)
    ensures EncodeJump(form, target, cx).Success? ==>
      BranchLength(form, target, cx) == Some(|EncodeJump(form, target, cx).value.bytes|)
  {
  }

  ghost predicate Agrees(r: Result<State, ErrorKind>, refusal: Option<ErrorKind>) {
    if refusal.Some? then r == Failure(refusal.value) else r.Success?
  }

  lemma InstructionRefuses(nodes: seq<Node>, k: nat, st: State, hint: Option<Layout>, maxOutput: nat)
    requires k < |nodes| && st.Sound() && LayoutInv(nodes, k, st) && HintFits(hint, |nodes|)
    requires TablesInv(nodes, k, st) && nodes[k].IsInstruction()
    ensures Agrees(EmitInstruction(st, nodes[k], k, hint, maxOutput),
      Refusal(nodes, k, CursorOf(st), ContextAt(st, k, hint), maxOutput))
  {
    hide Emit, EncodeJump, BranchLength, SpaceRefusal, Walk, SitesCover, Materialized, OffsetAt;
    assert Bounded(st.sections[st.current]);
    var cx := ContextAt(st, k, hint);
    if nodes[k].BranchNode? {
      BranchRefuses(nodes[k].form, nodes[k].target, cx);
    }
    var code := EncodeInstruction(nodes[k], cx);
    if st.sections[st.current].kind != Bss && code.Success? {
      var length := |code.value.bytes|;
      var noted := st.(
        forced := if MustStayNear(nodes[k], k, length, hint) then st.forced + {k} else st.forced,
        lengths := st.lengths[k := length],
        offsets := st.offsets[k := |st.sections[st.current].data|]);
      assert CursorOf(noted) == CursorOf(st);
      EmitRefuses(noted, k, code.value, maxOutput);
    }
  }

  lemma AlignRefuses(nodes: seq<Node>, k: nat, st: State, cx: Context, maxOutput: nat)
    requires k < |nodes| && st.Sound() && LayoutInv(nodes, k, st)
    requires TablesInv(nodes, k, st) && nodes[k].AlignNode?
    ensures Agrees(EmitAlign(st, k, nodes[k].value, maxOutput), Refusal(nodes, k, CursorOf(st), cx, maxOutput))
  {
    hide Emit, GrowBss, SpaceRefusal, Walk, SitesCover, Materialized, OffsetAt, Padding, IsPowerOfTwo, IsWordPower;
    var value := nodes[k].value;
    PowerBelowWord(value);
    var sec := st.sections[st.current];
    assert Bounded(sec);
    assert CursorOf(st).sizes[st.current] == sec.Size();
    if 0 < value < WORD_64 && IsPowerOfTwo(value) {
      var padding := Padding(sec.Size(), value);
      if sec.Size() + padding < WORD_64 {
        var aligned := st.(sections := st.sections[
          st.current := sec.(align := if sec.align >= value then sec.align else value)]);
        AlignedCursor(st, aligned);
        assert EmitAlign(st, k, value, maxOutput) == if sec.kind == Bss then GrowBss(aligned, padding)
          else Emit(aligned, k, Encoding(Repeat(if sec.kind == Text then 0x90 else 0, padding), []), maxOutput);
        if sec.kind == Bss {
          GrowRefuses(aligned, padding, maxOutput);
        } else {
          EmitRefuses(aligned, k, Encoding(Repeat(if sec.kind == Text then 0x90 else 0, padding), []), maxOutput);
        }
        assert Refusal(nodes, k, CursorOf(st), cx, maxOutput) == SpaceRefusal(CursorOf(st), padding, maxOutput);
      } else {
        assert EmitAlign(st, k, value, maxOutput) == Failure(SizeOverflow);
        assert Refusal(nodes, k, CursorOf(st), cx, maxOutput) == Some(SizeOverflow);
      }
    } else {
      assert EmitAlign(st, k, value, maxOutput) == Failure(BadAlignment);
      assert Refusal(nodes, k, CursorOf(st), cx, maxOutput) == Some(BadAlignment);
    }
  }

  lemma AlignedCursor(st: State, aligned: State)
    requires st.Sound() && |aligned.sections| == |st.sections| && aligned.current == st.current
    requires aligned.labels == st.labels && aligned.sites == st.sites
    requires |aligned.lengths| == |st.lengths| && |aligned.offsets| == |st.offsets|
    requires forall s | 0 <= s < |st.sections| ::
      aligned.sections[s] == st.sections[s].(align := aligned.sections[s].align)
    ensures CursorOf(aligned) == CursorOf(st) && aligned.Sound()
  {
    assert NamesOf(aligned.sections) == NamesOf(st.sections);
    assert KindsOf(aligned.sections) == KindsOf(st.sections);
    assert SizesOf(aligned.sections) == SizesOf(st.sections);
  }

  lemma SpaceRefuses(nodes: seq<Node>, k: nat, st: State, hint: Option<Layout>, cx: Context, maxOutput: nat)
    requires k < |nodes| && st.Sound() && LayoutInv(nodes, k, st) && HintFits(hint, |nodes|)
    requires TablesInv(nodes, k, st) && (nodes[k].DataNode? || nodes[k].ReserveNode?)
    ensures Agrees(Step(st, nodes[k], k, hint, maxOutput), Refusal(nodes, k, CursorOf(st), cx, maxOutput))
  {
    hide Emit, GrowBss, Walk, SitesCover, Materialized, OffsetAt;
    var sec := st.sections[st.current];
    assert Bounded(sec);
    var size := if nodes[k].DataNode? then |nodes[k].bytes| else nodes[k].size;
    if sec.kind == Bss {
      GrowRefuses(st, size, maxOutput);
    } else if nodes[k].DataNode? {
      EmitRefuses(st, k, Encoding(nodes[k].bytes, nodes[k].relocs), maxOutput);
    } else {
      EmitRefuses(st, k, Encoding(Repeat(0, size), []), maxOutput);
    }
  }

  lemma NamesRefuse(nodes: seq<Node>, k: nat, st: State, hint: Option<Layout>, cx: Context, maxOutput: nat)
    requires k < |nodes| && st.Sound() && LayoutInv(nodes, k, st) && HintFits(hint, |nodes|)
    requires TablesInv(nodes, k, st)
    requires nodes[k].SectionNode? || nodes[k].LabelNode? || nodes[k].ExternNode?
    ensures Agrees(Step(st, nodes[k], k, hint, maxOutput), Refusal(nodes, k, CursorOf(st), cx, maxOutput))
  {
    hide Walk, SitesCover, Materialized, OffsetAt, LabelBefore, ExternBefore;
    if nodes[k].SectionNode? {
      var names := NamesOf(st.sections);
      var index := FirstIndex(names, nodes[k].name);
      if index < |names| {
        assert CursorOf(st).names[index] == nodes[k].name && CursorOf(st).kinds[index] == st.sections[index].kind;
      }
    }
  }

  /** A pass refuses a node exactly when the program before it calls for it, with
      that error. */
  lemma StepRefuses(nodes: seq<Node>, k: nat, st: State, hint: Option<Layout>, maxOutput: nat)
    requires k < |nodes| && st.Sound() && LayoutInv(nodes, k, st) && HintFits(hint, |nodes|)
    requires TablesInv(nodes, k, st)
    ensures Agrees(Step(st, nodes[k], k, hint, maxOutput),
      Refusal(nodes, k, CursorOf(st), ContextAt(st, k, hint), maxOutput))
  {
    hide EmitInstruction, EmitAlign, EmitData, EmitReserve, SelectSection, DefineLabel, DefineExtern, Refusal,
         TablesInv, LayoutInv, SitesCover, CursorOf, ContextAt;
    if nodes[k].IsInstruction() {
      InstructionRefuses(nodes, k, st, hint, maxOutput);
    } else if nodes[k].AlignNode? {
      AlignRefuses(nodes, k, st, ContextAt(st, k, hint), maxOutput);
    } else if nodes[k].DataNode? || nodes[k].ReserveNode? {
      SpaceRefuses(nodes, k, st, hint, ContextAt(st, k, hint), maxOutput);
    } else {
      NamesRefuse(nodes, k, st, hint, ContextAt(st, k, hint), maxOutput);
    }
  }

  lemma {:induction false} MaterializedPrefix(a: Cursor, b: Cursor, n: nat)
    requires a.Valid() && b.Valid() && n <= |a.sizes| <= |b.sizes|
    requires forall s | 0 <= s < n :: a.kinds[s] == b.kinds[s] && a.sizes[s] == b.sizes[s]
    ensures Materialized(b, n) == Materialized(a, n)
  {
    if n > 0 {
      MaterializedPrefix(a, b, n - 1);
    }
  }

  lemma {:induction false} MaterializedGrows(a: Cursor, b: Cursor, t: nat, extra: nat, n: nat)
    requires a.Valid() && b.Valid() && n <= |a.sizes| == |b.sizes| && t < |a.sizes| && a.kinds == b.kinds
    requires b.sizes == a.sizes[t := a.sizes[t] + extra]
    ensures Materialized(b, n) == Materialized(a, n) + if t < n && a.kinds[t] != Bss then extra else 0
  {
    if n > 0 {
      MaterializedGrows(a, b, t, extra, n - 1);
    }
  }

  /** How one accepted node changes the tables. */
  lemma StepTallies(st: State, node: Node, i: nat, hint: Option<Layout>, maxOutput: nat, st': State)
    requires st.Sound() && i < |st.lengths| && HintFits(hint, |st.lengths|) && IsGrowing(node)
    requires Step(st, node, i, hint, maxOutput) == Success(st')
    ensures |st'.sections| == |st.sections|
    ensures st'.materialized == st.materialized
      + if st.sections[st.current].kind == Bss then 0
        else |st'.sections[st.current].data| - |st.sections[st.current].data|
    ensures st.sections[st.current].kind == Bss ==> st'.sections[st.current].zeroFill < WORD_64
  {
    hide EncodeInstruction, SitesCover, Padding, IsPowerOfTwo, Shifted, Sites, Repeat, NamesOf;
  }

  lemma GrowingTables(nodes: seq<Node>, k: nat, st: State, hint: Option<Layout>, maxOutput: nat, st': State)
    requires k < |nodes| && st.Sound() && LayoutInv(nodes, k, st) && HintFits(hint, |nodes|)
    requires TablesInv(nodes, k, st) && IsGrowing(nodes[k]) && |st.lengths| == |nodes|
    requires Step(st, nodes[k], k, hint, maxOutput) == Success(st') && LayoutInv(nodes, k + 1, st')
    ensures TablesInv(nodes, k + 1, st')
  {
    hide Step, LayoutInv, Walk, SitesCover, Materialized, Padding, EncodeInstruction, NodeCode, Records;
    var code, zeros := StepAppends(st, nodes[k], k, hint, maxOutput, st');
    StepTallies(st, nodes[k], k, hint, maxOutput, st');
    CursorAtEnd(nodes, k, st);
    SameNames(nodes, k);
    var a, b := CursorOf(st), CursorOf(st');
    assert KindsOf(st'.sections) == KindsOf(st.sections);
    var extra := |code.bytes| + zeros;
    assert SizesOf(st'.sections) == SizesOf(st.sections)[st.current := SizesOf(st.sections)[st.current] + extra];
    MaterializedGrows(a, b, st.current, extra, |st.sections|);
  }

  lemma SameNames(nodes: seq<Node>, k: nat)
    requires k < |nodes| && IsGrowing(nodes[k])
    ensures forall name :: LabelBefore(nodes, k + 1, name) <==> LabelBefore(nodes, k, name)
    ensures forall name :: ExternBefore(nodes, k + 1, name) <==> ExternBefore(nodes, k, name)
  {
  }

  lemma NamingTables(nodes: seq<Node>, k: nat, st: State, hint: Option<Layout>, maxOutput: nat, st': State)
    requires k < |nodes| && st.Sound() && HintFits(hint, |nodes|) && |st.lengths| == |nodes|
    requires TablesInv(nodes, k, st) && (nodes[k].LabelNode? || nodes[k].ExternNode?)
    requires Step(st, nodes[k], k, hint, maxOutput) == Success(st')
    ensures TablesInv(nodes, k + 1, st')
  {
    hide SitesCover, Materialized;
    MaterializedPrefix(CursorOf(st), CursorOf(st'), |st.sections|);
    OneMoreName(nodes, k);
  }

  lemma OneMoreName(nodes: seq<Node>, k: nat)
    requires k < |nodes|
    ensures forall name :: LabelBefore(nodes, k + 1, name) <==> LabelBefore(nodes, k, name) || nodes[k] == LabelNode(name)
    ensures forall name :: ExternBefore(nodes, k + 1, name) <==> ExternBefore(nodes, k, name) || nodes[k] == ExternNode(name)
  {
    forall name
      ensures LabelBefore(nodes, k + 1, name) <==> LabelBefore(nodes, k, name) || nodes[k] == LabelNode(name)
      ensures ExternBefore(nodes, k + 1, name) <==> ExternBefore(nodes, k, name) || nodes[k] == ExternNode(name)
    {
    }
  }

  lemma SelectTallies(st: State, name: Name, kind: Option<SectionKind>, st': State)
    requires st.Sound() && SelectSection(st, name, kind) == Success(st')
    ensures |st.sections| <= |st'.sections| && st'.sections[..|st.sections|] == st.sections
    ensures Materialized(CursorOf(st'), |st'.sections|) == Materialized(CursorOf(st'), |st.sections|)
    ensures |st'.sections| > |st.sections| ==>
      |st'.sections| == |st.sections| + 1 && st'.sections[|st.sections|].Size() == 0
      && st'.sections[|st.sections|].name == name && name !in NamesOf(st.sections)
  {
    hide SitesCover;
    var n := |st.sections|;
    if |st'.sections| > n {
      assert Materialized(CursorOf(st'), n + 1) == Materialized(CursorOf(st'), n) + 0;
    }
  }

  lemma SectionTables(nodes: seq<Node>, k: nat, st: State, hint: Option<Layout>, maxOutput: nat, st': State)
    requires k < |nodes| && st.Sound() && HintFits(hint, |nodes|) && |st.lengths| == |nodes|
    requires TablesInv(nodes, k, st) && nodes[k].SectionNode?
    requires Step(st, nodes[k], k, hint, maxOutput) == Success(st')
    ensures TablesInv(nodes, k + 1, st')
  {
    hide SitesCover, LabelBefore, ExternBefore, Materialized, StandardKind;
    OneMoreName(nodes, k);
    SelectTallies(st, nodes[k].name, nodes[k].kind, st');
    var n := |st.sections|;
    MaterializedPrefix(CursorOf(st), CursorOf(st'), n);
    assert forall s | 0 <= s < n :: NamesOf(st.sections)[s] == st.sections[s].name;
  }

  lemma {:induction false} RunTables(
    nodes: seq<Node>, k: nat, hint: Option<Layout>, forced: set<nat>, maxOutput: nat)
    requires k <= |nodes| && HintFits(hint, |nodes|)
    requires Run(nodes, k, hint, forced, maxOutput).Success?
    ensures TablesInv(nodes, k, Run(nodes, k, hint, forced, maxOutput).value)
  {
    hide Step, LayoutInv, TablesInv;
    if k == 0 {
      InitialTables(nodes, forced);
    } else {
      var before := Run(nodes, k - 1, hint, forced, maxOutput).value;
      var after := Run(nodes, k, hint, forced, maxOutput).value;
      RunTables(nodes, k - 1, hint, forced, maxOutput);
      RunLayout(nodes, k - 1, hint, forced, maxOutput);
      RunLayout(nodes, k, hint, forced, maxOutput);
      if IsGrowing(nodes[k - 1]) {
        GrowingTables(nodes, k - 1, before, hint, maxOutput, after);
      } else if nodes[k - 1].SectionNode? {
        SectionTables(nodes, k - 1, before, hint, maxOutput, after);
      } else {
        NamingTables(nodes, k - 1, before, hint, maxOutput, after);
      }
    }
  }

  lemma InitialTables(nodes: seq<Node>, forced: set<nat>)
    ensures TablesInv(nodes, 0, Initial(|nodes|, forced))
  {
    assert Materialized(CursorOf(Initial(|nodes|, forced)), 1) == 0;
  }

  /** The refusal of node `k` by a pass that accepted the nodes before it. */
  ghost function RunRefusal(
    nodes: seq<Node>, k: nat, hint: Option<Layout>, forced: set<nat>, maxOutput: nat): Option<ErrorKind>
    requires k < |nodes| && HintFits(hint, |nodes|) && Run(nodes, k, hint, forced, maxOutput).Success?
  {
    var st := Run(nodes, k, hint, forced, maxOutput).value;
    Refusal(nodes, k, Walk(nodes, st.lengths, k), ContextAt(st, k, hint), maxOutput)
  }

  /** One more node: its refusal, or the pass goes on. */
  lemma RunNext(nodes: seq<Node>, k: nat, hint: Option<Layout>, forced: set<nat>, maxOutput: nat)
    requires k < |nodes| && HintFits(hint, |nodes|) && Run(nodes, k, hint, forced, maxOutput).Success?
    ensures var refusal := RunRefusal(nodes, k, hint, forced, maxOutput);
      var next := Run(nodes, k + 1, hint, forced, maxOutput);
      if refusal.Some? then next == Failure(At(refusal.value, k)) else next.Success?
  {
    hide Step, Refusal, ContextAt, LayoutInv, TablesInv, CursorOf;
    var st := Run(nodes, k, hint, forced, maxOutput).value;
    RunLayout(nodes, k, hint, forced, maxOutput);
    RunTables(nodes, k, hint, forced, maxOutput);
    StepRefuses(nodes, k, st, hint, maxOutput);
    LayoutCursor(nodes, k, st);
  }

  /** The pass accepts node `k` after the nodes before it. */
  ghost predicate Accepts(nodes: seq<Node>, k: nat, hint: Option<Layout>, forced: set<nat>, maxOutput: nat)
    requires k < |nodes| && HintFits(hint, |nodes|)
  {
    Run(nodes, k, hint, forced, maxOutput).Success? && RunRefusal(nodes, k, hint, forced, maxOutput).None?
  }

  /** The pass accepts the nodes before `k` and reports the refusal of node `k`. */
  ghost predicate Stops(
    nodes: seq<Node>, k: nat, hint: Option<Layout>, forced: set<nat>, maxOutput: nat, r: Result<State, AsmError>)
    requires k < |nodes| && HintFits(hint, |nodes|)
  {
    && (forall j: nat | j < k :: Accepts(nodes, j, hint, forced, maxOutput))
    && Run(nodes, k, hint, forced, maxOutput).Success?
    && var refusal := RunRefusal(nodes, k, hint, forced, maxOutput);
       refusal.Some? && r == Failure(At(refusal.value, k))
  }

  /** A pass gets through all nodes exactly when it refuses none of them; otherwise it
      reports the refusal of the first, at that node. */
  lemma {:induction false} RunRefuses(
    nodes: seq<Node>, n: nat, hint: Option<Layout>, forced: set<nat>, maxOutput: nat)
    requires n <= |nodes| && HintFits(hint, |nodes|)
    ensures Run(nodes, n, hint, forced, maxOutput).Success? <==>
      forall k: nat | k < n :: Accepts(nodes, k, hint, forced, maxOutput)
    ensures Run(nodes, n, hint, forced, maxOutput).Failure? ==> exists k: nat ::
      k < n && Stops(nodes, k, hint, forced, maxOutput, Run(nodes, n, hint, forced, maxOutput))
  {
    hide Step, RunRefusal;
    if n > 0 {
      RunRefuses(nodes, n - 1, hint, forced, maxOutput);
      if Run(nodes, n - 1, hint, forced, maxOutput).Success? {
        RunNext(nodes, n - 1, hint, forced, maxOutput);
        assert Accepts(nodes, n - 1, hint, forced, maxOutput) <==> Run(nodes, n, hint, forced, maxOutput).Success?;
        assert forall j: nat | j < n - 1 :: Accepts(nodes, j, hint, forced, maxOutput);
        if Run(nodes, n, hint, forced, maxOutput).Failure? {
          assert Stops(nodes, n - 1, hint, forced, maxOutput, Run(nodes, n, hint, forced, maxOutput));
        }
      } else {
        var k: nat :| k < n - 1 && Stops(nodes, k, hint, forced, maxOutput, Run(nodes, n - 1, hint, forced, maxOutput));
        assert !Accepts(nodes, k, hint, forced, maxOutput);
        assert Stops(nodes, k, hint, forced, maxOutput, Run(nodes, n, hint, forced, maxOutput));
      }
    }
  }

  lemma LayoutCursor(nodes: seq<Node>, k: nat, st: State)
    requires LayoutInv(nodes, k, st)
    ensures CursorOf(st) == Walk(nodes, st.lengths, k)
  {
  }

  /** The kind of a section is the one its first directive states, or the kind that
      its name stands for. */
  ghost predicate KindStated(nodes: seq<Node>, k: nat, name: Name, kind: SectionKind)
    requires k <= |nodes|
  {
    if name == ".text" then kind == Text
    else exists j: nat :: j < k && FirstNames(nodes, j, name) && StatesKind(nodes[j], kind)
  }

  ghost predicate FirstNames(nodes: seq<Node>, j: nat, name: Name)
    requires j < |nodes|
  {
    && nodes[j].SectionNode? && nodes[j].name == name
    && forall i: nat | i < j :: nodes[i].SectionNode? ==> nodes[i].name != name
  }

  ghost predicate StatesKind(node: Node, kind: SectionKind)
    requires node.SectionNode?
  {
    if node.kind.Some? then node.kind == Some(kind)
    else if node.name == ".text" then kind == Text
    else if node.name == ".rodata" then kind == ReadOnlyData
    else if node.name == ".bss" then kind == Bss
    else kind == Data
  }

  ghost predicate NamedBefore(nodes: seq<Node>, k: nat, name: Name)
    requires k <= |nodes|
  {
    name == ".text" || exists j: nat :: j < k && nodes[j].SectionNode? && nodes[j].name == name
  }

  /** A section directive adds its section at most once. */
  lemma AdvanceNames(node: Node, length: nat, c: Cursor)
    requires c.Valid()
    ensures var d := Advance(node, length, c);
      if node.SectionNode? && node.name !in c.names then
        && d.names == c.names + [node.name]
        && d.kinds == c.kinds + [if node.kind.Some? then node.kind.value else DefaultKind(node.name)]
      else d.names == c.names && d.kinds == c.kinds
  {
  }

  lemma KindStays(nodes: seq<Node>, k: nat, name: Name, kind: SectionKind)
    requires k < |nodes| && KindStated(nodes, k, name, kind)
    ensures KindStated(nodes, k + 1, name, kind)
  {
    hide StatesKind;
    if name != ".text" {
      var j: nat :| j < k && FirstNames(nodes, j, name) && StatesKind(nodes[j], kind);
      assert j < k + 1;
    }
  }

  lemma KindBegins(nodes: seq<Node>, k: nat)
    requires k < |nodes| && nodes[k].SectionNode? && !NamedBefore(nodes, k, nodes[k].name)
    ensures var kind := if nodes[k].kind.Some? then nodes[k].kind.value else DefaultKind(nodes[k].name);
      KindStated(nodes, k + 1, nodes[k].name, kind)
  {
    assert FirstNames(nodes, k, nodes[k].name);
  }

  lemma NamedNext(nodes: seq<Node>, k: nat, name: Name)
    requires k < |nodes|
    ensures NamedBefore(nodes, k + 1, name) <==>
      NamedBefore(nodes, k, name) || (nodes[k].SectionNode? && nodes[k].name == name)
  {
  }

  ghost predicate KindsInv(nodes: seq<Node>, k: nat, c: Cursor)
    requires k <= |nodes| && c.Valid()
  {
    && (forall s: nat | s < |c.names| :: KindStated(nodes, k, c.names[s], c.kinds[s]))
    && (forall name :: name in c.names <==> NamedBefore(nodes, k, name))
  }

  lemma KindsNext(nodes: seq<Node>, k: nat, length: nat, c: Cursor)
    requires k < |nodes| && c.Valid() && KindsInv(nodes, k, c)
    ensures KindsInv(nodes, k + 1, Advance(nodes[k], length, c))
  {
    hide KindStated, NamedBefore, Advance;
    var d, node := Advance(nodes[k], length, c), nodes[k];
    AdvanceNames(node, length, c);
    forall s: nat | s < |d.names| ensures KindStated(nodes, k + 1, d.names[s], d.kinds[s]) {
      if s < |c.names| {
        KindStays(nodes, k, c.names[s], c.kinds[s]);
      } else {
        assert node.SectionNode? && node.name !in c.names;
        KindBegins(nodes, k);
      }
    }
    forall name ensures name in d.names <==> NamedBefore(nodes, k + 1, name) {
      NamedNext(nodes, k, name);
    }
  }

  lemma WalkNext(nodes: seq<Node>, lengths: seq<nat>, k: nat)
    requires k < |nodes| == |lengths|
    ensures Walk(nodes, lengths, k + 1) == Advance(nodes[k], lengths[k], Walk(nodes, lengths, k))
  {
  }

  /** Sections of the layout, by name: those that a directive names, and `.text`. */
  lemma {:induction false} SectionKinds(nodes: seq<Node>, lengths: seq<nat>, k: nat)
    requires k <= |nodes| == |lengths|
    ensures KindsInv(nodes, k, Walk(nodes, lengths, k))
  {
    hide KindsInv, Advance;
    if k == 0 {
      KindsStart(nodes);
    } else {
      WalkNext(nodes, lengths, k - 1);
      SectionKinds(nodes, lengths, k - 1);
      KindsNext(nodes, k - 1, lengths[k - 1], Walk(nodes, lengths, k - 1));
    }
  }

  lemma KindsStart(nodes: seq<Node>)
    ensures KindsInv(nodes, 0, START)
  {
  }
}
