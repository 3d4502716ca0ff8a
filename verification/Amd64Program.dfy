/**
  The assembler's input and output, after lexing, parsing and name scoping: a
  program is a sequence of nodes, an instruction without a label operand is its
  bytes, and symbol names are plain identities.
 */
module Amd64Program {
  import opened Bits
  import opened AsmSections
  import opened Wrappers

  /** `Relative8` is the field of LOOP; every other relocation only travels. */
  datatype RelocKind = Relative8 | Branch32 | OtherKind(code: nat)

  datatype Reloc = Reloc(offset: nat, symbol: Name, kind: RelocKind, addend: int)

  datatype Section = Section(
    name: Name, kind: SectionKind, align: nat, data: seq<Byte>, zeroFill: nat, relocs: seq<Reloc>)
  {
    function Size(): nat {
      |data| + zeroFill
    }
  }

  /** Opcode bytes of a direct branch; CALL has no short form. */
  datatype BranchForm = BranchForm(near: seq<Byte>, short: Option<Byte>) {
    function NearLength(): nat {
      |near| + 4
    }
  }

  const JMP := BranchForm([0xE9], Some(0xEB))
  const CALL := BranchForm([0xE8], None)

  function Jcc(condition: nat): BranchForm
    requires condition < 16
  {
    BranchForm([0x0F, 0x80 + condition], Some(0x70 + condition))
  }

  predicate IsForm(form: BranchForm) {
    form == JMP || form == CALL || exists c | 0 <= c < 16 :: form == Jcc(c)
  }

  datatype Node =
    | SectionNode(name: Name, kind: Option<SectionKind>)
    | LabelNode(name: Name)
    | ExternNode(name: Name)
    | FixedNode(bytes: seq<Byte>, relocs: seq<Reloc>)
    | BranchNode(form: BranchForm, target: Name)
    | LoopNode(target: Name)
    | AlignNode(value: int)
    | DataNode(bytes: seq<Byte>, relocs: seq<Reloc>)
    | ReserveNode(size: nat)
  {
    predicate IsInstruction() {
      FixedNode? || BranchNode? || LoopNode?
    }

    /** A JMP or Jcc to a label: the nodes whose length relaxation chooses. */
    predicate IsRelaxable() {
      BranchNode? && form.short.Some?
    }
  }

  /** Encoders put each relocation field inside their own bytes, in increasing
      order, and only LOOP uses the 8-bit kind. */
  ghost predicate ValidRelocs(relocs: seq<Reloc>, length: nat) {
    && (forall r | 0 <= r < |relocs| :: relocs[r].offset < length && !relocs[r].kind.Relative8?)
    && (forall q, r | 0 <= q < r < |relocs| :: relocs[q].offset < relocs[r].offset)
  }

  ghost predicate ValidNode(node: Node) {
    match node
    case FixedNode(bytes, relocs) => ValidRelocs(relocs, |bytes|)
    case DataNode(bytes, relocs) => ValidRelocs(relocs, |bytes|)
    case BranchNode(form, _) => IsForm(form)
    case _ => true
  }

  ghost predicate ValidProgram(nodes: seq<Node>) {
    forall i | 0 <= i < |nodes| :: ValidNode(nodes[i])
  }

  datatype ErrorKind =
    | IncompatibleSection(section: Name)
    | StandardSectionKind(section: Name)
    | ExternAlreadyDefined(symbol: Name)
    | LabelConflictsWithExtern(symbol: Name)
    | DuplicateLabel(symbol: Name)
    | InstructionInBss
    | NearOutOfRange(symbol: Name)
    | LoopOutOfRange(symbol: Name)
    | BadAlignment
    | BssInitializer
    | SizeOverflow
    | OutputLimit
    | UndefinedSymbol(symbol: Name)

  datatype AsmError = At(kind: ErrorKind, node: nat) | DidNotConverge(passes: nat)
}
