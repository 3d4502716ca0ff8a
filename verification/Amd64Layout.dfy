/**
  The layout of a program as a function of its instruction lengths alone: the
  reference that every encoding pass is compared with.
 */
module Amd64Layout {
  import opened AsmSections
  import opened Bits
  import opened Wrappers
  import opened Amd64Program

  /** The layout that one pass hands to the next. */
  datatype Layout = Layout(labels: map<Name, (nat, nat)>, lengths: seq<nat>, offsets: seq<nat>)

  datatype Cursor = Cursor(
    names: seq<Name>, kinds: seq<SectionKind>, sizes: seq<nat>, current: nat,
    labels: map<Name, (nat, nat)>)
  {
    predicate Valid() {
      |names| == |kinds| == |sizes| && current < |sizes|
    }
  }

  const START := Cursor([".text"], [Text], [0], 0, map[])

  predicate IsStandard(name: Name) {
    name == ".text" || name == ".data" || name == ".rodata" || name == ".bss"
  }

  /** How far a node moves the end of the current section. */
  function Growth(node: Node, length: nat, size: nat): nat {
    match node
    case FixedNode(_, _) => length
    case BranchNode(_, _) => length
    case LoopNode(_) => length
    case AlignNode(value) => if value > 0 then Padding(size, value) else 0
    case DataNode(bytes, _) => |bytes|
    case ReserveNode(extra) => extra
    case _ => 0
  }

  function Advance(node: Node, length: nat, c: Cursor): (c': Cursor)
    requires c.Valid()
    ensures c'.Valid()
    ensures |c.sizes| <= |c'.sizes| && c.kinds <= c'.kinds
    ensures forall s | 0 <= s < |c.sizes| :: c.sizes[s] <= c'.sizes[s]
  {
    match node
    case SectionNode(name, kind) =>
      var index := FirstIndex(c.names, name);
      if index < |c.names| then c.(current := index)
      else
        Cursor(
          c.names + [name],
          c.kinds + [if kind.Some? then kind.value else DefaultKind(name)],
          c.sizes + [0], index, c.labels)
    case LabelNode(name) =>
      c.(labels := c.labels[name := (c.current, c.sizes[c.current])])
    case _ =>
      var size := c.sizes[c.current];
      c.(sizes := c.sizes[c.current := size + Growth(node, length, size)])
  }

  /** The cursor before node `k`. */
  function Walk(nodes: seq<Node>, lengths: seq<nat>, k: nat): (c: Cursor)
    requires k <= |nodes| == |lengths|
    ensures c.Valid()
  {
    if k == 0 then START else Advance(nodes[k - 1], lengths[k - 1], Walk(nodes, lengths, k - 1))
  }

  function SectionAt(nodes: seq<Node>, lengths: seq<nat>, i: nat): nat
    requires i <= |nodes| == |lengths|
  {
    Walk(nodes, lengths, i).current
  }

  function OffsetAt(nodes: seq<Node>, lengths: seq<nat>, i: nat): nat
    requires i <= |nodes| == |lengths|
  {
    var c := Walk(nodes, lengths, i);
    c.sizes[c.current]
  }

  function LayoutOf(nodes: seq<Node>, lengths: seq<nat>): Layout
    requires |nodes| == |lengths|
  {
    Layout(
      Walk(nodes, lengths, |nodes|).labels,
      lengths,
      seq(|nodes|, i requires 0 <= i < |nodes| =>
        if nodes[i].IsInstruction() then OffsetAt(nodes, lengths, i) else 0))
  }

  /** The cursor before node `k` only depends on the lengths before `k`. */
  lemma {:induction false} WalkFrame(nodes: seq<Node>, a: seq<nat>, b: seq<nat>, k: nat)
    requires k <= |nodes| == |a| == |b|
    requires a[..k] == b[..k]
    ensures Walk(nodes, a, k) == Walk(nodes, b, k)
  {
    if k > 0 {
      assert a[..k][..k - 1] == a[..k - 1] && b[..k][..k - 1] == b[..k - 1];
      assert a[..k][k - 1] == a[k - 1] && b[..k][k - 1] == b[k - 1];
      WalkFrame(nodes, a, b, k - 1);
    }
  }

  lemma {:induction false} SizesGrow(nodes: seq<Node>, lengths: seq<nat>, i: nat, j: nat, s: nat)
    requires i <= j <= |nodes| == |lengths|
    requires s < |Walk(nodes, lengths, i).sizes|
    ensures s < |Walk(nodes, lengths, j).sizes|
    ensures Walk(nodes, lengths, i).sizes[s] <= Walk(nodes, lengths, j).sizes[s]
  {
    hide Advance;
    if i < j {
      SizesGrow(nodes, lengths, i, j - 1, s);
    }
  }

  /** Two nodes of one section occupy disjoint ranges, in program order. */
  lemma SlotsDisjoint(nodes: seq<Node>, lengths: seq<nat>, i: nat, j: nat)
    requires i < j < |nodes| == |lengths|
    requires !nodes[i].SectionNode? && !nodes[i].LabelNode?
    requires SectionAt(nodes, lengths, i) == SectionAt(nodes, lengths, j)
    ensures OffsetAt(nodes, lengths, i) + Growth(nodes[i], lengths[i], OffsetAt(nodes, lengths, i))
            <= OffsetAt(nodes, lengths, j)
  {
    SizesGrow(nodes, lengths, i + 1, j, SectionAt(nodes, lengths, i));
  }

  /** After an `align` directive the section's size is a multiple of its operand. */
  lemma AlignedAfter(nodes: seq<Node>, lengths: seq<nat>, k: nat)
    requires k < |nodes| == |lengths| && nodes[k].AlignNode?
    requires 0 < nodes[k].value < WORD_64 && IsPowerOfTwo(nodes[k].value)
    ensures OffsetAt(nodes, lengths, k + 1) % nodes[k].value == 0
    ensures OffsetAt(nodes, lengths, k + 1) - OffsetAt(nodes, lengths, k) < nodes[k].value
  {
    PaddingAligns(OffsetAt(nodes, lengths, k), nodes[k].value);
  }
}
