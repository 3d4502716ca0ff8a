/**
  The reference for source mappings: marks that name instructions by identity,
  where nothing has to be shifted. The builder's deferred index arithmetic
  refines it, over every sequence of calls.
 */
module SourceTracking {
  import opened Wrappers
  import opened SourceBuilder

  /** What a mapping is about; targets outside the function stand for themselves. */
  datatype Subject = TheInstruction(identity: nat) | TheTerminator(block: nat) | Elsewhere(target: Target)

  datatype Mark = Mark(subject: Subject, original: nat)

  /** A checkpoint is the creation count and the blocks that were terminated. */
  datatype Moment = Moment(created: nat, terminated: set<nat>)

  datatype Tracker = Tracker(body: Body, marks: seq<Mark>, moments: seq<Moment>)

  function Subjects(marks: seq<Mark>): set<Subject> {
    set m | m in marks :: m.subject
  }

  function TerminatedBlocks(body: Body): set<nat> {
    set b | b in body.blocks && b.terminated :: b.id
  }

  function SlotSubject(body: Body, p: nat, i: nat): Subject
    requires p < |body.blocks|
  {
    var block := body.blocks[p];
    if i < |block.instructions| then TheInstruction(block.instructions[i].identity) else TheTerminator(block.id)
  }

  /** A slot is new when it was created, or terminated, after the checkpoint. */
  predicate CreatedSince(body: Body, moment: Moment, p: nat, i: nat)
    requires p < |body.blocks|
  {
    var block := body.blocks[p];
    if i < |block.instructions| then block.instructions[i].identity >= moment.created
    else block.terminated && block.id !in moment.terminated
  }

  function BlockMarks(body: Body, moment: Moment, original: nat, marked: set<Subject>, p: nat, n: nat): seq<Mark>
    requires p < |body.blocks| && n <= |body.blocks[p].instructions| + 1
  {
    if n == 0 then []
    else
      var rest := BlockMarks(body, moment, original, marked, p, n - 1);
      var subject := SlotSubject(body, p, n - 1);
      if CreatedSince(body, moment, p, n - 1) && subject !in marked then rest + [Mark(subject, original)] else rest
  }

  function NewMarks(body: Body, moment: Moment, original: nat, marked: set<Subject>, k: nat): seq<Mark>
    requires k <= |body.blocks|
  {
    if k == 0 then []
    else
      NewMarks(body, moment, original, marked, k - 1)
      + BlockMarks(body, moment, original, marked, k - 1, |body.blocks[k - 1].instructions| + 1)
  }

  function Track(t: Tracker, call: Call): (r: Tracker)
    requires HasEntry(t.body)
    ensures r.body == BodyAfter(t.body, call)
  {
    match call
    case CheckpointCall => t.(moments := t.moments + [Moment(t.body.created, TerminatedBlocks(t.body))])
    case AnnotateCall(original, k) =>
      if k < |t.moments| then
        t.(marks := t.marks + NewMarks(t.body, t.moments[k], original, Subjects(t.marks), |t.body.blocks|))
      else t
    case _ => t.(body := BodyAfter(t.body, call))
  }

  /** Block ids and instruction identities are unique. */
  ghost predicate Unique(body: Body) {
    && (forall p | 0 <= p < |body.blocks| :: body.blocks[p].id < body.nextBlock)
    && (forall p, q | 0 <= p < q < |body.blocks| :: body.blocks[p].id != body.blocks[q].id)
    && (forall p, i | 0 <= p < |body.blocks| && 0 <= i < |body.blocks[p].instructions| ::
         body.blocks[p].instructions[i].identity < body.created)
    && (forall p, i, q, j | 0 <= p < |body.blocks| && 0 <= i < |body.blocks[p].instructions|
          && 0 <= q < |body.blocks| && 0 <= j < |body.blocks[q].instructions| && (p != q || i != j) ::
         body.blocks[p].instructions[i].identity != body.blocks[q].instructions[j].identity)
  }

  ghost predicate Sound(body: Body) {
    HasEntry(body) && Unique(body)
  }

  /** What a target names in a function, if it names anything. */
  function SubjectOf(body: Body, target: Target): Option<Subject> {
    match target
    case GlobalAt(_) => Some(Elsewhere(target))
    case InstructionAt(f, id, i) =>
      if f != body.function_ then Some(Elsewhere(target))
      else
        var p := IndexOf(body.blocks, id);
        if p < |body.blocks| && i < |body.blocks[p].instructions|
        then Some(TheInstruction(body.blocks[p].instructions[i].identity)) else None
    case TerminatorOf(f, id) =>
      if f != body.function_ then Some(Elsewhere(target))
      else
        var p := IndexOf(body.blocks, id);
        if p < |body.blocks| && body.blocks[p].terminated then Some(TheTerminator(id)) else None
  }

  lemma IndexUnique(blocks: seq<Block>, p: nat)
    requires p < |blocks| && forall q | 0 <= q < |blocks| && q != p :: blocks[q].id != blocks[p].id
    ensures IndexOf(blocks, blocks[p].id) == p
  {
  }

  lemma SlotNames(body: Body, p: nat, i: nat)
    requires Sound(body) && p < |body.blocks|
    requires i < |body.blocks[p].instructions| || body.blocks[p].terminated
    ensures SubjectOf(body, SlotTarget(body, p, i)) == Some(SlotSubject(body, p, i))
  {
    IndexUnique(body.blocks, p);
  }

  /** Two targets that name the same thing are equal. */
  lemma NamesOnce(body: Body, s: Target, t: Target)
    requires Sound(body) && SubjectOf(body, s).Some? && SubjectOf(body, s) == SubjectOf(body, t)
    ensures s == t
  {
    if s.InstructionAt? && s.function_ == body.function_ {
      var p, q := IndexOf(body.blocks, s.block), IndexOf(body.blocks, t.block);
      assert body.blocks[p].instructions[s.index].identity == body.blocks[q].instructions[t.index].identity;
    }
  }

  /** The target of every mapping, once the pending shift is applied, names the
      subject of the mark at the same place. */
  ghost predicate Denotes(body: Body, shift: Option<Shift>, mappings: seq<Mapping>, marks: seq<Mark>) {
    && |mappings| == |marks|
    && forall k | 0 <= k < |marks| ::
         && mappings[k].original == marks[k].original
         && SubjectOf(body, Adjusted(body, shift, mappings[k].target)) == Some(marks[k].subject)
  }

  ghost predicate InEntry(body: Body, target: Target) {
    target.InstructionAt? && target.function_ == body.function_ && target.block == body.entry
  }

  /** The pending shift lies inside the leading allocas, and moves only targets
      that it moves past all of them. */
  ghost predicate ShiftSound(b: Builder)
    requires HasEntry(b.body)
  {
    b.shift.Some? ==>
      && b.shift.value.position + b.shift.value.count <= Allocas(EntryCode(b.body))
      && forall m | m in b.mappings && InEntry(b.body, m.target) && m.target.index >= b.shift.value.position ::
           m.target.index + b.shift.value.count >= Allocas(EntryCode(b.body))
  }

  /** A function without the mapped flag has neither mappings nor a shift. */
  ghost predicate FlagSound(b: Builder) {
    !b.mapped ==> b.shift.None? && forall m | m in b.mappings :: !InEntry(b.body, m.target)
  }

  /** How the entry block grew since a checkpoint with `length` instructions and
      `allocas` leading allocas, when `created` instructions existed. */
  ghost predicate Grew(block: Block, isEntry: bool, before: Snapshot, created: nat) {
    var code := block.instructions;
    var allocas := Allocas(code);
    if isEntry then
      && before.allocas <= before.length && before.allocas <= allocas
      && allocas + before.length - before.allocas <= |code|
      && forall i | 0 <= i < |code| :: code[i].identity >= created <==>
           before.allocas <= i < allocas || i >= before.length + allocas - before.allocas
    else
      && before.length <= |code|
      && forall i | 0 <= i < |code| :: code[i].identity >= created <==> i >= before.length
  }

  ghost predicate Remembers(body: Body, before: seq<Snapshot>, moment: Moment) {
    && moment.created <= body.created
    && (forall p | 0 <= p < |body.blocks| ::
         var block := body.blocks[p];
         && Grew(block, block.id == body.entry, Before(before, block.id), moment.created)
         && (Before(before, block.id).terminated <==> block.id in moment.terminated))
    && (forall x | x in before :: x.id < body.nextBlock)
    && (forall id | id in moment.terminated :: id < body.nextBlock)
  }

  ghost predicate DistinctSubjects(marks: seq<Mark>) {
    forall j, k | 0 <= j < k < |marks| :: marks[j].subject != marks[k].subject
  }

  /** The builder and the tracker agree. */
  ghost predicate Agree(s: Session, t: Tracker) {
    && s.builder.body == t.body && Sound(t.body)
    && Denotes(t.body, s.builder.shift, s.builder.mappings, t.marks)
    && ShiftSound(s.builder) && FlagSound(s.builder)
    && |s.checkpoints| == |t.moments|
    && (forall k | 0 <= k < |t.moments| :: Remembers(t.body, s.checkpoints[k], t.moments[k]))
    && DistinctSubjects(t.marks)
  }
}
