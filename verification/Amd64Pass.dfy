/** The encoding pass as the program runs it: one loop over the nodes that
    updates the sections, labels, lengths and relocation sites in place. */
module Amd64Pass {
  import opened AsmSections
  import opened Bits
  import opened Wrappers
  import opened Amd64Program
  import opened Amd64Layout
  import opened Amd64Encode

  lemma {:induction false} FailureSticks(
    nodes: seq<Node>, k: nat, n: nat, hint: Option<Layout>, forced: set<nat>, maxOutput: nat)
    requires k <= n <= |nodes| && HintFits(hint, |nodes|)
    requires Run(nodes, k, hint, forced, maxOutput).Failure?
    ensures Run(nodes, n, hint, forced, maxOutput) == Run(nodes, k, hint, forced, maxOutput)
  {
    hide Step;
    if k < n {
      FailureSticks(nodes, k, n - 1, hint, forced, maxOutput);
    }
  }

  /** The encoder's mutable state. `State()` is its value. */
  class Encoder {
    var sections: seq<Section>
    var current: nat
    var labels: map<Name, (nat, nat)>
    var lengths: seq<nat>
    var offsets: seq<nat>
    var forced: set<nat>
    var materialized: nat
    var externs: set<Name>
    var sites: map<(nat, nat), nat>

    function Value(): State
      reads this
    {
      State(sections, current, labels, lengths, offsets, forced, materialized, externs, sites)
    }

    constructor (count: nat, forcedNear: set<nat>)
      ensures Value() == Initial(count, forcedNear)
    {
      sections, current, labels := [TEXT], 0, map[];
      lengths, offsets := seq(count, _ => 0), seq(count, _ => 0);
      forced, materialized, externs, sites := forcedNear, 0, {}, map[];
    }

    method Select(name: Name, kind: Option<SectionKind>) returns (error: Option<ErrorKind>)
      requires Value().Sound()
      modifies this
      ensures Reports(error, SelectSection(old(Value()), name, kind), Value())
    {
      var index := FirstIndex(NamesOf(sections), name);
      if index < |sections| {
        if kind.Some? && kind.value != sections[index].kind {
          return Some(IncompatibleSection(name));
        }
        current := index;
      } else {
        var chosen := if kind.Some? then kind.value else DefaultKind(name);
        if IsStandard(name) && chosen != DefaultKind(name) {
          return Some(StandardSectionKind(name));
        }
        sections := sections + [Section(name, chosen, DefaultAlignment(chosen), [], 0, [])];
        current := |sections| - 1;
      }
      return None;
    }

    method Label(name: Name) returns (error: Option<ErrorKind>)
      requires Value().Sound()
      modifies this
      ensures Reports(error, DefineLabel(old(Value()), name), Value())
    {
      if name in externs {
        return Some(LabelConflictsWithExtern(name));
      }
      if name in labels {
        return Some(DuplicateLabel(name));
      }
      var offset := sections[current].Size();
      if offset >= WORD_64 {
        return Some(SizeOverflow);
      }
      labels := labels[name := (current, offset)];
      return None;
    }

    method Extern(name: Name) returns (error: Option<ErrorKind>)
      requires Value().Sound()
      modifies this
      ensures Reports(error, DefineExtern(old(Value()), name), Value())
    {
      if name in labels {
        return Some(ExternAlreadyDefined(name));
      }
      externs := externs + {name};
      return None;
    }

    method Append(node: nat, code: Encoding, maxOutput: nat) returns (error: Option<ErrorKind>)
      requires Value().Sound()
      modifies this
      ensures Reports(error, Emit(old(Value()), node, code, maxOutput), Value())
    {
      var sec := sections[current];
      var total := ReserveOutput(|sec.data|, |code.bytes|, materialized, maxOutput);
      if total.Failure? {
        return Some(total.error);
      }
      materialized := total.value;
      var relocs := sec.relocs + Shifted(code.relocs, |sec.data|);
      sections := sections[current := sec.(data := sec.data + code.bytes, relocs := relocs)];
      sites := sites + Sites(current, |sec.relocs|, |relocs|, node);
      return None;
    }

    method Grow(extra: nat) returns (error: Option<ErrorKind>)
      requires Value().Sound()
      modifies this
      ensures Reports(error, GrowBss(old(Value()), extra), Value())
    {
      var sec := sections[current];
      if sec.zeroFill + extra >= WORD_64 {
        return Some(SizeOverflow);
      }
      sections := sections[current := sec.(zeroFill := sec.zeroFill + extra)];
      return None;
    }

    method Instruction(node: Node, i: nat, hint: Option<Layout>, maxOutput: nat)
      returns (error: Option<ErrorKind>)
      requires Value().Sound() && i < |lengths| && node.IsInstruction() && HintFits(hint, |lengths|)
      modifies this
      ensures Reports(error, EmitInstruction(old(Value()), node, i, hint, maxOutput), Value())
    {
      if sections[current].kind == Bss {
        return Some(InstructionInBss);
      }
      var code := EncodeInstruction(node, ContextAt(Value(), i, hint));
      if code.Failure? {
        return Some(code.error);
      }
      if MustStayNear(node, i, |code.value.bytes|, hint) {
        forced := forced + {i};
      }
      lengths := lengths[i := |code.value.bytes|];
      offsets := offsets[i := |sections[current].data|];
      error := Append(i, code.value, maxOutput);
    }

    method Align(node: nat, value: int, maxOutput: nat) returns (error: Option<ErrorKind>)
      requires Value().Sound()
      modifies this
      ensures Reports(error, EmitAlign(old(Value()), node, value, maxOutput), Value())
    {
      if !(0 < value < WORD_64) || !IsPowerOfTwo(value) {
        return Some(BadAlignment);
      }
      var sec := sections[current];
      var padding := Padding(sec.Size(), value);
      if sec.Size() + padding >= WORD_64 {
        return Some(SizeOverflow);
      }
      sections := sections[current := sec.(align := if sec.align >= value then sec.align else value)];
      if sec.kind == Bss {
        error := Grow(padding);
      } else {
        var fill: Byte := if sec.kind == Text then 0x90 else 0;
        error := Append(node, Encoding(Repeat(fill, padding), []), maxOutput);
      }
    }

    method Data(node: nat, code: Encoding, maxOutput: nat) returns (error: Option<ErrorKind>)
      requires Value().Sound()
      modifies this
      ensures Reports(error, EmitData(old(Value()), node, code, maxOutput), Value())
    {
      if sections[current].kind != Bss {
        error := Append(node, code, maxOutput);
      } else if code.relocs == [] && forall b | b in code.bytes :: b == 0 {
        error := Grow(|code.bytes|);
      } else {
        error := Some(BssInitializer);
      }
    }

    method Reserve(node: nat, size: nat, maxOutput: nat) returns (error: Option<ErrorKind>)
      requires Value().Sound()
      modifies this
      ensures Reports(error, EmitReserve(old(Value()), node, size, maxOutput), Value())
    {
      if size >= WORD_64 {
        return Some(SizeOverflow);
      }
      if sections[current].kind == Bss {
        error := Grow(size);
      } else {
        error := Append(node, Encoding(Repeat(0, size), []), maxOutput);
      }
    }

    method Node(node: Node, i: nat, hint: Option<Layout>, maxOutput: nat)
      returns (error: Option<ErrorKind>)
      requires Value().Sound() && i < |lengths| && HintFits(hint, |lengths|)
      modifies this
      ensures Reports(error, Step(old(Value()), node, i, hint, maxOutput), Value())
    {
      match node
      case SectionNode(name, kind) => error := Select(name, kind);
      case LabelNode(name) => error := Label(name);
      case ExternNode(name) => error := Extern(name);
      case AlignNode(value) => error := Align(i, value, maxOutput);
      case DataNode(bytes, relocs) => error := Data(i, Encoding(bytes, relocs), maxOutput);
      case ReserveNode(size) => error := Reserve(i, size, maxOutput);
      case _ => error := Instruction(node, i, hint, maxOutput);
    }

    /** The first relocation, in section order, against an undeclared symbol. */
    method FindUndefined() returns (site: Option<(nat, nat)>)
      ensures site.None? ==> AllDefined(sections, labels, externs)
      ensures site.Some? ==>
        var (s, x) := site.value;
        && s < |sections| && x < |sections[s].relocs|
        && !Defined(sections[s].relocs[x], labels, externs)
        && forall q, y | 0 <= q <= s && 0 <= y < |sections[q].relocs| && (q < s || y < x) ::
             Defined(sections[q].relocs[y], labels, externs)
    {
      for s := 0 to |sections|
        invariant forall q, y | 0 <= q < s && 0 <= y < |sections[q].relocs| ::
          Defined(sections[q].relocs[y], labels, externs)
      {
        var relocs := sections[s].relocs;
        for x := 0 to |relocs|
          invariant forall y | 0 <= y < x :: Defined(relocs[y], labels, externs)
        {
          if !Defined(relocs[x], labels, externs) {
            return Some((s, x));
          }
        }
      }
      return None;
    }
  }

  /** A method reports exactly the failure of its specification, and otherwise
      leaves exactly the specified state. */
  ghost predicate Reports(error: Option<ErrorKind>, spec: Result<State, ErrorKind>, now: State) {
    match spec
    case Failure(kind) => error == Some(kind)
    case Success(st) => error == None && now == st
  }

  /** Encode every node in order, stopping at the first error. */
  method EncodeNodes(nodes: seq<Node>, encoder: Encoder, hint: Option<Layout>, maxOutput: nat)
    returns (error: Option<AsmError>)
    requires HintFits(hint, |nodes|)
    requires encoder.Value() == Initial(|nodes|, encoder.forced)
    modifies encoder
    ensures match Run(nodes, |nodes|, hint, old(encoder.forced), maxOutput)
            case Failure(e) => error == Some(e)
            case Success(st) => error == None && encoder.Value() == st
  {
    hide Step;
    ghost var forced := encoder.forced;
    for i := 0 to |nodes|
      invariant Run(nodes, i, hint, forced, maxOutput) == Success(encoder.Value())
    {
      var failure := encoder.Node(nodes[i], i, hint, maxOutput);
      if failure.Some? {
        FailureSticks(nodes, i + 1, |nodes|, hint, forced, maxOutput);
        return Some(At(failure.value, i));
      }
    }
    return None;
  }

  method EncodeOnce(nodes: seq<Node>, hint: Option<Layout>, forced: set<nat>, maxOutput: nat)
    returns (r: Result<Pass, AsmError>)
    requires HintFits(hint, |nodes|)
    ensures IsPass(nodes, hint, forced, maxOutput, r)
  {
    var encoder := new Encoder(|nodes|, forced);
    var error := EncodeNodes(nodes, encoder, hint, maxOutput);
    if error.Some? {
      return Failure(error.value);
    }
    var undefined := encoder.FindUndefined();
    if undefined.Some? {
      var (s, x) := undefined.value;
      var symbol := encoder.sections[s].relocs[x].symbol;
      return Failure(At(UndefinedSymbol(symbol), encoder.sites[(s, x)]));
    }
    var layout := Layout(encoder.labels, encoder.lengths, encoder.offsets);
    return Success(Pass(encoder.sections, layout, encoder.sites, encoder.forced));
  }
}
