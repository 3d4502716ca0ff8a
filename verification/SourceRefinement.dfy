/** The proof that deferred shifting agrees with the tracker after every call. */
module SourceRefinement {
  import opened Wrappers
  import opened SourceBuilder
  import opened SourceTracking

  lemma AllocasIs(code: seq<Instruction>, n: nat)
    requires n <= |code| && (forall i | 0 <= i < n :: code[i].kind.Alloca?)
    requires n < |code| ==> !code[n].kind.Alloca?
    ensures Allocas(code) == n
  {
  }

  lemma AllocasAppend(code: seq<Instruction>, next: Instruction)
    ensures Allocas(code + [next]) ==
      if Allocas(code) == |code| && next.kind.Alloca? then |code| + 1 else Allocas(code)
  {
    AllocasIs(code + [next], if Allocas(code) == |code| && next.kind.Alloca? then |code| + 1 else Allocas(code));
  }

  function InsertedAt(code: seq<Instruction>, at: nat, next: Instruction): (r: seq<Instruction>)
    requires at <= |code|
    ensures |r| == |code| + 1
    ensures forall i: nat | i <= |code| :: r[i] == if i < at then code[i] else if i == at then next else code[i - 1]
  {
    code[..at] + [next] + code[at..]
  }

  function Inserted(code: seq<Instruction>, next: Instruction): seq<Instruction> {
    InsertedAt(code, Allocas(code), next)
  }

  lemma AllocasInsert(code: seq<Instruction>, next: Instruction)
    requires next.kind.Alloca?
    ensures Allocas(Inserted(code, next)) == Allocas(code) + 1
  {
    hide Allocas;
    AllocasIs(InsertedAt(code, Allocas(code), next), Allocas(code) + 1);
  }

  /** `after` names everything that `before` names, in the same way. */
  ghost predicate Extends(before: Body, after: Body) {
    && after.function_ == before.function_ && after.entry == before.entry
    && forall target :: SubjectOf(before, target).Some? ==> SubjectOf(after, target) == SubjectOf(before, target)
  }

  lemma AppendExtends(body: Body, kind: Kind)
    requires Sound(body) && Append(body, kind).Success?
    ensures Extends(body, Append(body, kind).value)
  {
    hide Unique;
    var p := Insertable(body).value;
    var after := Append(body, kind).value;
    forall target | SubjectOf(body, target).Some? ensures SubjectOf(after, target) == SubjectOf(body, target) {
      if !target.GlobalAt? {
        ReplaceIndex(body.blocks, p, after.blocks[p], target.block);
      }
    }
  }

  lemma AppendSound(body: Body, kind: Kind)
    requires Sound(body) && Append(body, kind).Success?
    ensures Sound(Append(body, kind).value)
  {
    hide IndexOf;
    var p := Insertable(body).value;
    var after := Append(body, kind).value;
    ReplaceIndex(body.blocks, p, after.blocks[p], body.entry);
  }

  lemma TerminateExtends(body: Body)
    requires Sound(body) && Terminate(body).Success?
    ensures Sound(Terminate(body).value) && Extends(body, Terminate(body).value)
  {
    hide IndexOf;
    var p := Insertable(body).value;
    var after := Terminate(body).value;
    ReplaceIndex(body.blocks, p, after.blocks[p], body.entry);
    forall target | SubjectOf(body, target).Some? ensures SubjectOf(after, target) == SubjectOf(body, target) {
      if !target.GlobalAt? {
        ReplaceIndex(body.blocks, p, after.blocks[p], target.block);
      }
    }
  }

  lemma CreateBlockExtends(body: Body)
    requires Sound(body)
    ensures Sound(CreateBlock(body)) && Extends(body, CreateBlock(body))
  {
    hide IndexOf;
    NewBlockIndex(body.blocks, Block(body.nextBlock, [], false), body.entry);
    forall target | SubjectOf(body, target).Some?
      ensures SubjectOf(CreateBlock(body), target) == SubjectOf(body, target)
    {
      if !target.GlobalAt? {
        NewBlockIndex(body.blocks, Block(body.nextBlock, [], false), target.block);
      }
    }
  }

  lemma HoistSound(body: Body)
    requires Sound(body)
    ensures Sound(Hoist(body))
    ensures EntryCode(Hoist(body)) == Inserted(EntryCode(body), Instruction(Alloca, body.created))
  {
    hide IndexOf, Allocas;
    var p := IndexOf(body.blocks, body.entry);
    var after := Hoist(body);
    ReplaceIndex(body.blocks, p, after.blocks[p], body.entry);
  }

  /** What a target becomes when an alloca is inserted. */
  function Moved(body: Body, target: Target): Target
    requires HasEntry(body)
  {
    if target.InstructionAt? && target.function_ == body.function_ && target.block == body.entry
       && target.index >= Allocas(EntryCode(body))
    then target.(index := target.index + 1)
    else target
  }

  lemma HoistNames(body: Body, target: Target)
    requires Sound(body) && SubjectOf(body, target).Some?
    ensures SubjectOf(Hoist(body), Moved(body, target)) == SubjectOf(body, target)
  {
    hide Unique, Allocas, IndexOf;
    var p := IndexOf(body.blocks, body.entry);
    var next := Instruction(Alloca, body.created);
    AllocasInsert(EntryCode(body), next);
    if !target.GlobalAt? {
      ReplaceIndex(body.blocks, p, Hoist(body).blocks[p], target.block);
    }
  }

  /** The pending shift, one larger, moves exactly what the insertion moves. */
  lemma HoistMoves(b: Builder, m: Mapping)
    requires Sound(b.body) && ShiftSound(b) && FlagSound(b) && m in b.mappings
    ensures var after := AllocaInEntry(b);
      Adjusted(after.body, after.shift, m.target) == Moved(b.body, Adjusted(b.body, b.shift, m.target))
  {
    hide Unique, Allocas, IndexOf;
  }

  lemma HoistShift(b: Builder)
    requires Sound(b.body) && ShiftSound(b) && FlagSound(b)
    ensures HasEntry(AllocaInEntry(b).body) && ShiftSound(AllocaInEntry(b)) && FlagSound(AllocaInEntry(b))
  {
    hide Unique, Allocas, IndexOf, Inserted;
    HoistSound(b.body);
    AllocasInsert(EntryCode(b.body), Instruction(Alloca, b.body.created));
  }

  lemma HoistDenotes(b: Builder, marks: seq<Mark>)
    requires Sound(b.body) && ShiftSound(b) && FlagSound(b) && Denotes(b.body, b.shift, b.mappings, marks)
    ensures var after := AllocaInEntry(b); Denotes(after.body, after.shift, after.mappings, marks)
  {
    hide Unique, ShiftSound, FlagSound, Adjusted, Hoist, SubjectOf, Moved;
    var after := AllocaInEntry(b);
    assert after.body == Hoist(b.body) && after.mappings == b.mappings;
    forall k | 0 <= k < |marks|
      ensures SubjectOf(after.body, Adjusted(after.body, after.shift, b.mappings[k].target)) == Some(marks[k].subject)
    {
      HoistMoves(b, b.mappings[k]);
      HoistNames(b.body, Adjusted(b.body, b.shift, b.mappings[k].target));
    }
  }

  /** Growing by one instruction keeps the account of a checkpoint. */
  lemma AppendGrew(block: Block, isEntry: bool, before: Snapshot, created: nat, next: Instruction)
    requires Grew(block, isEntry, before, created) && next.identity >= created
    ensures Grew(block.(instructions := block.instructions + [next]), isEntry, before, created)
  {
    hide Allocas;
    AllocasAppend(block.instructions, next);
  }

  lemma InsertGrew(block: Block, before: Snapshot, created: nat, next: Instruction)
    requires Grew(block, true, before, created) && next.identity >= created && next.kind.Alloca?
    ensures Grew(block.(instructions := Inserted(block.instructions, next)), true, before, created)
  {
    hide Allocas;
    AllocasInsert(block.instructions, next);
  }

  /** One block replaced by a longer one, without changing whether it is terminated. */
  lemma ReplaceRemembers(body: Body, after: Body, p: nat, before: seq<Snapshot>, moment: Moment)
    requires Remembers(body, before, moment) && p < |body.blocks|
    requires |after.blocks| == |body.blocks| && after.entry == body.entry
    requires after.nextBlock == body.nextBlock && after.created >= body.created
    requires forall q | 0 <= q < |body.blocks| && q != p :: after.blocks[q] == body.blocks[q]
    requires after.blocks[p].id == body.blocks[p].id
    requires var block := after.blocks[p];
      Grew(block, block.id == body.entry, Before(before, block.id), moment.created)
    ensures Remembers(after, before, moment)
  {
    hide Grew, Before;
  }

  lemma AppendRemembers(body: Body, kind: Kind, before: seq<Snapshot>, moment: Moment)
    requires Remembers(body, before, moment) && Append(body, kind).Success?
    ensures Remembers(Append(body, kind).value, before, moment)
  {
    hide Grew, Before, IndexOf;
    var p := Insertable(body).value;
    var block := body.blocks[p];
    AppendGrew(block, block.id == body.entry, Before(before, block.id), moment.created, Instruction(kind, body.created));
    ReplaceRemembers(body, Append(body, kind).value, p, before, moment);
  }

  lemma HoistRemembers(body: Body, before: seq<Snapshot>, moment: Moment)
    requires Sound(body) && Remembers(body, before, moment)
    ensures Remembers(Hoist(body), before, moment)
  {
    hide Grew, Before, IndexOf, Allocas;
    var p := IndexOf(body.blocks, body.entry);
    var block := body.blocks[p];
    InsertGrew(block, Before(before, block.id), moment.created, Instruction(Alloca, body.created));
    ReplaceRemembers(body, Hoist(body), p, before, moment);
  }

  lemma {:induction false} BeforeUnknown(before: seq<Snapshot>, id: nat)
    requires forall x | x in before :: x.id != id
    ensures Before(before, id) == Snapshot(id, 0, 0, false)
  {
    if before != [] {
      BeforeUnknown(before[1..], id);
    }
  }

  lemma CreateBlockRemembers(body: Body, before: seq<Snapshot>, moment: Moment)
    requires Sound(body) && Remembers(body, before, moment)
    ensures Remembers(CreateBlock(body), before, moment)
  {
    hide Before;
    BeforeUnknown(before, body.nextBlock);
  }

  lemma {:induction false} BeforeAt(body: Body, p: nat)
    requires Sound(body) && p < |body.blocks|
    ensures var block := body.blocks[p];
      Before(Snapshots(body), block.id) ==
        Snapshot(block.id, |block.instructions|, Allocas(block.instructions), block.terminated)
  {
    hide Allocas;
    BeforeFirst(Snapshots(body), p);
  }

  lemma {:induction false} BeforeFirst(before: seq<Snapshot>, p: nat)
    requires p < |before| && forall q | 0 <= q < p :: before[q].id != before[p].id
    ensures Before(before, before[p].id) == before[p]
  {
    if p > 0 {
      assert before[0].id != before[p].id;
      BeforeFirst(before[1..], p - 1);
    }
  }

  /** A checkpoint remembers the moment at which it is taken. */
  lemma CheckpointRemembers(body: Body)
    requires Sound(body)
    ensures Remembers(body, Snapshots(body), Moment(body.created, TerminatedBlocks(body)))
  {
    hide Before, Allocas;
    forall p | 0 <= p < |body.blocks|
      ensures var block := body.blocks[p];
        && Grew(block, block.id == body.entry, Before(Snapshots(body), block.id), body.created)
        && (Before(Snapshots(body), block.id).terminated <==> block.id in TerminatedBlocks(body))
    {
      BeforeAt(body, p);
    }
  }
}
