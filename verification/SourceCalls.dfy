/** What the calls of the function builder do to its blocks, said by block ids. */
module SourceCalls {
  import opened Wrappers
  import opened SourceBuilder
  import opened SourceTracking

  ghost predicate DistinctIds(body: Body) {
    forall p, q | 0 <= p < q < |body.blocks| :: body.blocks[p].id != body.blocks[q].id
  }

  ghost predicate HasBlock(body: Body, id: nat) {
    exists block :: block in body.blocks && block.id == id
  }

  ghost predicate IsTerminated(body: Body, id: nat) {
    exists block :: block in body.blocks && block.id == id && block.terminated
  }

  ghost predicate HoldsOnlyPhis(body: Body, id: nat) {
    forall block, i | block in body.blocks && block.id == id && 0 <= i < |block.instructions| ::
      block.instructions[i].kind.Phi?
  }

  /** The block `id` is changed, and no other. */
  ghost predicate OnlyBlockChanges(before: Body, after: Body, id: nat, change: Block -> Block) {
    && |after.blocks| == |before.blocks|
    && forall p | 0 <= p < |before.blocks| ::
         after.blocks[p] == if before.blocks[p].id == id then change(before.blocks[p]) else before.blocks[p]
  }

  /** The error that keeps the insertion block from growing, if any. */
  ghost function InsertionError(body: Body): Option<BuilderError> {
    if !HasBlock(body, body.insert) then Some(UnknownBlock(body.insert))
    else if IsTerminated(body, body.insert) then Some(TerminatedBlock(body.insert))
    else None
  }

  lemma InsertableIsOpen(body: Body)
    requires DistinctIds(body)
    ensures var r := Insertable(body);
      match InsertionError(body)
      case Some(e) => r == Failure(e)
      case None => r.Success? && r.value < |body.blocks| && body.blocks[r.value].id == body.insert
  {
    var p := IndexOf(body.blocks, body.insert);
    if p < |body.blocks| {
      assert body.blocks[p] in body.blocks;
    }
    assert forall q | 0 <= q < |body.blocks| && q != p :: body.blocks[q].id != body.insert;
  }

  /** An instruction becomes the last one of the insertion block, which must exist and
      be open; a phi only joins phis. A refused call is an error and nothing else. */
  lemma AppendMeans(body: Body, kind: Kind)
    requires DistinctIds(body)
    ensures var r := Append(body, kind);
      if InsertionError(body).Some? then r == Failure(InsertionError(body).value)
      else if kind.Phi? && !HoldsOnlyPhis(body, body.insert) then r == Failure(PhiAfterInstruction(body.insert))
      else (
        && r.Success?
        && HasBlock(body, body.insert) && !IsTerminated(body, body.insert)
        && OnlyBlockChanges(body, r.value, body.insert,
             (block: Block) => block.(instructions := block.instructions + [Instruction(kind, body.created)]))
        && r.value == body.(blocks := r.value.blocks, created := body.created + 1))
  {
    hide Insertable, IndexOf;
    InsertableIsOpen(body);
    if InsertionError(body).None? {
      var p := Insertable(body).value;
      assert body.blocks[p] in body.blocks;
      assert forall q | 0 <= q < |body.blocks| && q != p :: body.blocks[q].id != body.insert;
    }
  }

  /** A terminator closes the insertion block, which must exist and be open. */
  lemma TerminateMeans(body: Body)
    requires DistinctIds(body)
    ensures var r := Terminate(body);
      if InsertionError(body).Some? then r == Failure(InsertionError(body).value)
      else (
        && r.Success?
        && HasBlock(body, body.insert) && !IsTerminated(body, body.insert)
        && OnlyBlockChanges(body, r.value, body.insert, (block: Block) => block.(terminated := true))
        && r.value == body.(blocks := r.value.blocks))
  {
    hide Insertable, IndexOf;
    InsertableIsOpen(body);
    if InsertionError(body).None? {
      var p := Insertable(body).value;
      assert body.blocks[p] in body.blocks;
      assert forall q | 0 <= q < |body.blocks| && q != p :: body.blocks[q].id != body.insert;
    }
  }

  /** A new block is empty, open and last, and its id is new; nothing is inserted
      into it until the insertion point moves there. */
  lemma CreateBlockMeans(body: Body)
    requires Unique(body)
    ensures var after := CreateBlock(body);
      && |after.blocks| == |body.blocks| + 1
      && (forall p | 0 <= p < |body.blocks| :: after.blocks[p] == body.blocks[p])
      && after.blocks[|body.blocks|] == Block(body.nextBlock, [], false)
      && !HasBlock(body, body.nextBlock)
      && after == body.(blocks := after.blocks, nextBlock := after.nextBlock)
      && Unique(after)
  {
    hide HasEntry;
  }

  /** The insertion point moves to any block that exists, and only there. */
  lemma SetInsertPointMeans(body: Body, id: nat)
    ensures SetInsertPoint(body, id) ==
      if HasBlock(body, id) then Success(body.(insert := id)) else Failure(UnknownBlock(id))
  {
    var p := IndexOf(body.blocks, id);
    if p < |body.blocks| {
      assert body.blocks[p] in body.blocks;
    }
  }

  /** Instructions with a new alloca behind the leading ones. */
  ghost predicate HoistedInto(code: seq<Instruction>, hoisted: seq<Instruction>, identity: nat, at: nat) {
    && at <= |code| && |hoisted| == |code| + 1
    && (forall i | 0 <= i < at :: code[i].kind.Alloca? && hoisted[i] == code[i])
    && (at < |code| ==> !code[at].kind.Alloca?)
    && hoisted[at] == Instruction(Alloca, identity)
    && (forall i | at <= i < |code| :: hoisted[i + 1] == code[i])
  }

  /** A hoisted alloca goes behind the leading allocas of the entry block, wherever
      the insertion point is. */
  lemma HoistMeans(body: Body)
    requires DistinctIds(body) && HasEntry(body)
    ensures var after := Hoist(body);
      && HasBlock(body, body.entry)
      && |after.blocks| == |body.blocks|
      && (forall p | 0 <= p < |body.blocks| ::
           if body.blocks[p].id == body.entry then
             && after.blocks[p] == body.blocks[p].(instructions := after.blocks[p].instructions)
             && exists at: nat :: HoistedInto(body.blocks[p].instructions, after.blocks[p].instructions, body.created, at)
           else after.blocks[p] == body.blocks[p])
      && after == body.(blocks := after.blocks, created := body.created + 1)
  {
    hide IndexOf, Allocas;
    var p := IndexOf(body.blocks, body.entry);
    assert body.blocks[p] in body.blocks;
    var after := Hoist(body);
    var code := body.blocks[p].instructions;
    assert HoistedInto(code, after.blocks[p].instructions, body.created, Allocas(code));
    assert forall q | 0 <= q < |body.blocks| && q != p :: body.blocks[q].id != body.entry;
  }

  /** The checked form is refused exactly when the insertion block cannot grow or the
      entry block is terminated. */
  lemma HoistRefusalMeans(body: Body)
    requires DistinctIds(body) && HasEntry(body)
    ensures HoistRefusal(body) ==
      if InsertionError(body).Some? then InsertionError(body)
      else if IsTerminated(body, body.entry) then Some(TerminatedBlock(body.entry))
      else None
  {
    hide Insertable;
    InsertableIsOpen(body);
    var p := IndexOf(body.blocks, body.entry);
    assert body.blocks[p] in body.blocks;
    assert forall q | 0 <= q < |body.blocks| && q != p :: body.blocks[q].id != body.entry;
  }
}
