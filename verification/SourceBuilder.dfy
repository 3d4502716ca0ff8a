/**
  The function builder and its source metadata. An alloca hoisted into the entry
  block moves the instructions behind it, but the recorded instruction indices
  are corrected later, by one pending shift.
 */
module SourceBuilder {
  import opened Wrappers

  datatype Kind = Alloca | Phi | Other

  /** `identity` is the creation number of an instruction. The builder never reads it. */
  datatype Instruction = Instruction(kind: Kind, identity: nat)

  datatype Block = Block(id: nat, instructions: seq<Instruction>, terminated: bool)

  datatype Target =
    | InstructionAt(function_: nat, block: nat, index: nat)
    | TerminatorOf(function_: nat, block: nat)
    | GlobalAt(global: nat)

  datatype Mapping = Mapping(target: Target, original: nat)

  datatype Shift = Shift(position: nat, count: nat)

  /** One block as a checkpoint remembers it. */
  datatype Snapshot = Snapshot(id: nat, length: nat, allocas: nat, terminated: bool)

  datatype BuilderError = UnknownBlock(id: nat) | TerminatedBlock(id: nat) | PhiAfterInstruction(id: nat)

  /** The function under construction. */
  datatype Body = Body(
    function_: nat, entry: nat, blocks: seq<Block>, insert: nat, created: nat, nextBlock: nat)

  /** The function with the metadata of its module. */
  datatype Builder = Builder(
    body: Body, mappings: seq<Mapping>, originals: seq<nat>, shift: Option<Shift>, mapped: bool)

  /** The length of the leading run of allocas. */
  function Allocas(instructions: seq<Instruction>): (n: nat)
    ensures n <= |instructions|
    ensures forall i | 0 <= i < n :: instructions[i].kind.Alloca?
    ensures n < |instructions| ==> !instructions[n].kind.Alloca?
  {
    if instructions == [] || !instructions[0].kind.Alloca? then 0 else 1 + Allocas(instructions[1..])
  }

  function IndexOf(blocks: seq<Block>, id: nat): (p: nat)
    ensures p <= |blocks|
    ensures p < |blocks| ==> blocks[p].id == id
    ensures forall q | 0 <= q < p :: blocks[q].id != id
  {
    if blocks == [] || blocks[0].id == id then 0 else 1 + IndexOf(blocks[1..], id)
  }

  function Insertable(body: Body): Result<nat, BuilderError> {
    var p := IndexOf(body.blocks, body.insert);
    if p == |body.blocks| then Failure(UnknownBlock(body.insert))
    else if body.blocks[p].terminated then Failure(TerminatedBlock(body.insert))
    else Success(p)
  }

  function Append(body: Body, kind: Kind): Result<Body, BuilderError> {
    var at := Insertable(body);
    if at.Failure? then Failure(at.error)
    else
      var p := at.value;
      var old_ := body.blocks[p];
      if kind.Phi? && exists i | 0 <= i < |old_.instructions| :: !old_.instructions[i].kind.Phi? then
        Failure(PhiAfterInstruction(body.insert))
      else
        var grown := old_.(instructions := old_.instructions + [Instruction(kind, body.created)]);
        Success(body.(blocks := body.blocks[p := grown], created := body.created + 1))
  }

  function Terminate(body: Body): Result<Body, BuilderError> {
    var at := Insertable(body);
    if at.Failure? then Failure(at.error)
    else Success(body.(blocks := body.blocks[at.value := body.blocks[at.value].(terminated := true)]))
  }

  function CreateBlock(body: Body): Body {
    body.(blocks := body.blocks + [Block(body.nextBlock, [], false)], nextBlock := body.nextBlock + 1)
  }

  function SetInsertPoint(body: Body, id: nat): Result<Body, BuilderError> {
    if IndexOf(body.blocks, id) == |body.blocks| then Failure(UnknownBlock(id)) else Success(body.(insert := id))
  }

  predicate HasEntry(body: Body) {
    IndexOf(body.blocks, body.entry) < |body.blocks|
  }

  function EntryCode(body: Body): seq<Instruction>
    requires HasEntry(body)
  {
    body.blocks[IndexOf(body.blocks, body.entry)].instructions
  }

  /** `alloca_in_entry`: the alloca goes behind the leading allocas of the entry. */
  function Hoist(body: Body): Body
    requires HasEntry(body)
  {
    var p := IndexOf(body.blocks, body.entry);
    var code := EntryCode(body);
    var at := Allocas(code);
    var grown := code[..at] + [Instruction(Alloca, body.created)] + code[at..];
    body.(blocks := body.blocks[p := body.blocks[p].(instructions := grown)], created := body.created + 1)
  }

  /** The checks of `try_alloca_in_entry`. */
  function HoistRefusal(body: Body): Option<BuilderError>
    requires HasEntry(body)
  {
    var at := Insertable(body);
    if at.Failure? then Some(at.error)
    else if body.blocks[IndexOf(body.blocks, body.entry)].terminated then Some(TerminatedBlock(body.entry))
    else None
  }

  function AllocaInEntry(b: Builder): Builder
    requires HasEntry(b.body)
  {
    var at := Allocas(EntryCode(b.body));
    b.(
      body := Hoist(b.body),
      shift :=
        if !b.mapped then b.shift
        else if b.shift.Some? then Some(Shift(b.shift.value.position, b.shift.value.count + 1))
        else Some(Shift(at, 1)))
  }

  /** A target after the pending shift. */
  function Adjusted(body: Body, shift: Option<Shift>, target: Target): Target {
    if shift.Some? && target.InstructionAt? && target.function_ == body.function_ && target.block == body.entry
       && target.index >= shift.value.position
    then target.(index := target.index + shift.value.count)
    else target
  }

  function AdjustedMappings(body: Body, shift: Option<Shift>, mappings: seq<Mapping>): (r: seq<Mapping>)
    ensures |r| == |mappings|
  {
    seq(|mappings|, k requires 0 <= k < |mappings| =>
      mappings[k].(target := Adjusted(body, shift, mappings[k].target)))
  }

  function Flush(b: Builder): Builder {
    b.(mappings := AdjustedMappings(b.body, b.shift, b.mappings), shift := None)
  }

  function Snapshots(body: Body): seq<Snapshot> {
    seq(|body.blocks|, p requires 0 <= p < |body.blocks| =>
      var block := body.blocks[p];
      Snapshot(block.id, |block.instructions|, Allocas(block.instructions), block.terminated))
  }

  /** What the checkpoint says about a block: nothing, for a block it does not know. */
  function Before(before: seq<Snapshot>, id: nat): Snapshot {
    if before == [] then Snapshot(id, 0, 0, false)
    else if before[0].id == id then before[0]
    else Before(before[1..], id)
  }

  /** Slot `i` of a block is its instruction `i`; the slot behind them is the terminator. */
  function SlotTarget(body: Body, p: nat, i: nat): Target
    requires p < |body.blocks|
  {
    var block := body.blocks[p];
    if i < |block.instructions| then InstructionAt(body.function_, block.id, i)
    else TerminatorOf(body.function_, block.id)
  }

  /** The index arithmetic that decides whether a slot is new since a checkpoint. */
  predicate NewSlot(body: Body, before: Snapshot, p: nat, i: nat)
    requires p < |body.blocks|
  {
    var block := body.blocks[p];
    if i >= |block.instructions| then block.terminated && !before.terminated
    else if block.id == body.entry then
      var allocas := Allocas(block.instructions);
      var newAllocas := if allocas >= before.allocas then allocas - before.allocas else 0;
      before.allocas <= i < allocas || i >= before.length + newAllocas
    else i >= before.length
  }

  function BlockMappings(
    body: Body, before: seq<Snapshot>, original: nat, existing: set<Target>, p: nat, n: nat): seq<Mapping>
    requires p < |body.blocks| && n <= |body.blocks[p].instructions| + 1
  {
    if n == 0 then []
    else
      var rest := BlockMappings(body, before, original, existing, p, n - 1);
      var target := SlotTarget(body, p, n - 1);
      if NewSlot(body, Before(before, body.blocks[p].id), p, n - 1) && target !in existing then
        rest + [Mapping(target, original)]
      else rest
  }

  function NewMappings(
    body: Body, before: seq<Snapshot>, original: nat, existing: set<Target>, k: nat): seq<Mapping>
    requires k <= |body.blocks|
  {
    if k == 0 then []
    else
      NewMappings(body, before, original, existing, k - 1)
      + BlockMappings(body, before, original, existing, k - 1, |body.blocks[k - 1].instructions| + 1)
  }

  function Targets(mappings: seq<Mapping>): set<Target> {
    set m | m in mappings :: m.target
  }

  function Annotate(b: Builder, original: nat, before: seq<Snapshot>): Builder {
    var flushed := Flush(b);
    flushed.(
      originals := if original in flushed.originals then flushed.originals else flushed.originals + [original],
      mappings := flushed.mappings
        + NewMappings(b.body, before, original, Targets(flushed.mappings), |b.body.blocks|),
      mapped := true)
  }

  /** One call on the builder. Checkpoints are kept in the order they were taken. */
  datatype Call =
    | AppendCall(kind: Kind) | TerminateCall | CreateBlockCall | SetInsertPointCall(id: nat)
    | AllocaInEntryCall | CheckpointCall | AnnotateCall(original: nat, checkpoint: nat) | FlushCall

  datatype Session = Session(builder: Builder, checkpoints: seq<seq<Snapshot>>)

  /** The body after a call; a failing call leaves it as it was. */
  function BodyAfter(body: Body, call: Call): Body
    requires HasEntry(body)
  {
    match call
    case AppendCall(kind) => var r := Append(body, kind); if r.Success? then r.value else body
    case TerminateCall => var r := Terminate(body); if r.Success? then r.value else body
    case CreateBlockCall => CreateBlock(body)
    case SetInsertPointCall(id) => var r := SetInsertPoint(body, id); if r.Success? then r.value else body
    case AllocaInEntryCall => Hoist(body)
    case _ => body
  }

  lemma ReplaceIndex(blocks: seq<Block>, p: nat, block: Block, id: nat)
    requires p < |blocks| && block.id == blocks[p].id
    ensures IndexOf(blocks[p := block], id) == IndexOf(blocks, id)
  {
    IndexIs(blocks[p := block], id, IndexOf(blocks, id));
  }

  lemma IndexIs(blocks: seq<Block>, id: nat, p: nat)
    requires p <= |blocks| && (p < |blocks| ==> blocks[p].id == id)
    requires forall q | 0 <= q < p :: blocks[q].id != id
    ensures IndexOf(blocks, id) == p
  {
  }

  lemma NewBlockIndex(blocks: seq<Block>, block: Block, id: nat)
    ensures IndexOf(blocks + [block], id) ==
      if IndexOf(blocks, id) < |blocks| || block.id == id then IndexOf(blocks, id) else |blocks| + 1
  {
    var after := blocks + [block];
    assert forall q | 0 <= q < |blocks| :: after[q] == blocks[q];
    assert after[|blocks|] == block;
  }

  lemma KeepsEntry(body: Body, call: Call)
    requires HasEntry(body)
    ensures HasEntry(BodyAfter(body, call))
    ensures BodyAfter(body, call).function_ == body.function_ && BodyAfter(body, call).entry == body.entry
  {
    hide IndexOf, Allocas;
    var after := BodyAfter(body, call);
    if call.CreateBlockCall? {
      NewBlockIndex(body.blocks, Block(body.nextBlock, [], false), body.entry);
    } else if call.AllocaInEntryCall? {
      var p := IndexOf(body.blocks, body.entry);
      ReplaceIndex(body.blocks, p, after.blocks[p], body.entry);
    } else if (call.AppendCall? || call.TerminateCall?) && after != body {
      var p := Insertable(body).value;
      ReplaceIndex(body.blocks, p, after.blocks[p], body.entry);
    }
  }

  function Apply(s: Session, call: Call): (r: Session)
    requires HasEntry(s.builder.body)
    ensures r.builder.body == BodyAfter(s.builder.body, call) && HasEntry(r.builder.body)
  {
    KeepsEntry(s.builder.body, call);
    match call
    case AllocaInEntryCall => s.(builder := AllocaInEntry(s.builder))
    case CheckpointCall => Session(Flush(s.builder), s.checkpoints + [Snapshots(s.builder.body)])
    case AnnotateCall(original, k) =>
      if k < |s.checkpoints| then s.(builder := Annotate(s.builder, original, s.checkpoints[k])) else s
    case FlushCall => s.(builder := Flush(s.builder))
    case _ => s.(builder := s.builder.(body := BodyAfter(s.builder.body, call)))
  }
}
