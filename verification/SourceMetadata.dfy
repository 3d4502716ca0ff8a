/**
  The function builder as the program runs it, the validation of source
  metadata, and the validity of the metadata of every finished function.
 */
module SourceMetadata {
  import opened Wrappers
  import opened SourceBuilder
  import opened SourceTracking
  import opened SourceRefinement
  import opened SourceRuns

  class FunctionBuilder {
    const function_: nat
    const entry: nat
    var blocks: seq<Block>
    var insert: nat
    var created: nat
    var nextBlock: nat
    var mappings: seq<Mapping>
    var originals: seq<nat>
    var shift: Option<Shift>
    var mapped: bool

    function CurrentBody(): Body
      reads this
    {
      Body(function_, entry, blocks, insert, created, nextBlock)
    }

    function Value(): Builder
      reads this
    {
      Builder(CurrentBody(), mappings, originals, shift, mapped)
    }

    constructor (function_: nat, entry: nat, mappings: seq<Mapping>, originals: seq<nat>)
      ensures Value() == Start(function_, entry, mappings, originals)
    {
      this.function_, this.entry, insert, created, nextBlock := function_, entry, entry, 0, entry + 1;
      blocks := [Block(entry, [], false)];
      this.mappings, this.originals, shift, mapped := mappings, originals, None, false;
    }

    method Push(kind: Kind) returns (error: Option<BuilderError>)
      modifies this`blocks, this`created
      ensures match Append(old(CurrentBody()), kind)
              case Failure(e) => error == Some(e) && CurrentBody() == old(CurrentBody())
              case Success(body) => error == None && CurrentBody() == body
    {
      var at := Insertable(CurrentBody());
      if at.Failure? {
        return Some(at.error);
      }
      var block := blocks[at.value];
      if kind.Phi? && exists i | 0 <= i < |block.instructions| :: !block.instructions[i].kind.Phi? {
        return Some(PhiAfterInstruction(insert));
      }
      var grown := block.(instructions := block.instructions + [Instruction(kind, created)]);
      blocks, created := blocks[at.value := grown], created + 1;
      return None;
    }

    method EndBlock() returns (error: Option<BuilderError>)
      modifies this`blocks
      ensures match Terminate(old(CurrentBody()))
              case Failure(e) => error == Some(e) && CurrentBody() == old(CurrentBody())
              case Success(body) => error == None && CurrentBody() == body
    {
      var at := Insertable(CurrentBody());
      if at.Failure? {
        return Some(at.error);
      }
      blocks := blocks[at.value := blocks[at.value].(terminated := true)];
      return None;
    }

    method NewBlock() returns (id: nat)
      modifies this`blocks, this`nextBlock
      ensures CurrentBody() == CreateBlock(old(CurrentBody())) && id == old(nextBlock)
    {
      id := nextBlock;
      blocks, nextBlock := blocks + [Block(id, [], false)], nextBlock + 1;
    }

    method MoveTo(id: nat) returns (error: Option<BuilderError>)
      modifies this`insert
      ensures match SetInsertPoint(old(CurrentBody()), id)
              case Failure(e) => error == Some(e) && CurrentBody() == old(CurrentBody())
              case Success(body) => error == None && CurrentBody() == body
    {
      if IndexOf(blocks, id) == |blocks| {
        return Some(UnknownBlock(id));
      }
      insert := id;
      return None;
    }

    method HoistAlloca()
      requires HasEntry(CurrentBody())
      modifies this`blocks, this`created, this`shift
      ensures Value() == AllocaInEntry(old(Value()))
    {
      var p := IndexOf(blocks, entry);
      var code := blocks[p].instructions;
      var at := 0;
      while at < |code| && code[at].kind.Alloca?
        invariant at <= |code| && forall i | 0 <= i < at :: code[i].kind.Alloca?
      {
        at := at + 1;
      }
      AllocasIs(code, at);
      blocks := blocks[p := blocks[p].(instructions := code[..at] + [Instruction(Alloca, created)] + code[at..])];
      created := created + 1;
      if mapped {
        if shift.Some? {
          shift := Some(Shift(shift.value.position, shift.value.count + 1));
        } else {
          shift := Some(Shift(at, 1));
        }
      }
    }

    /** The checked form: refused calls leave everything as it was. */
    method TryHoistAlloca() returns (error: Option<BuilderError>)
      requires HasEntry(CurrentBody())
      modifies this`blocks, this`created, this`shift
      ensures error == HoistRefusal(old(CurrentBody()))
      ensures Value() == if error.None? then AllocaInEntry(old(Value())) else old(Value())
    {
      error := HoistRefusal(CurrentBody());
      if error.None? {
        HoistAlloca();
      }
    }

    method FlushShifts()
      modifies this`mappings, this`shift
      ensures Value() == Flush(old(Value()))
    {
      if shift.Some? {
        var Shift(position, count) := shift.value;
        ghost var before := mappings;
        for k := 0 to |mappings|
          invariant |mappings| == |before|
          invariant mappings[..k] == AdjustedMappings(old(CurrentBody()), old(shift), before)[..k]
          invariant forall j | k <= j < |before| :: mappings[j] == before[j]
        {
          var target := mappings[k].target;
          if target.InstructionAt? && target.function_ == function_ && target.block == entry
             && target.index >= position
          {
            mappings := mappings[k := mappings[k].(target := target.(index := target.index + count))];
          }
        }
        shift := None;
      } else {
        assert AdjustedMappings(CurrentBody(), shift, mappings) == mappings;
      }
    }

    method Checkpoint() returns (before: seq<Snapshot>)
      modifies this`mappings, this`shift
      ensures Value() == Flush(old(Value())) && before == Snapshots(old(CurrentBody()))
    {
      FlushShifts();
      before := Snapshots(CurrentBody());
    }

    method AnnotateBlock(original: nat, before: seq<Snapshot>, existing: set<Target>, p: nat)
      requires p < |blocks|
      modifies this`mappings
      ensures mappings == old(mappings)
        + BlockMappings(CurrentBody(), before, original, existing, p, |blocks[p].instructions| + 1)
    {
      hide Before, NewSlot;
      var known := Before(before, blocks[p].id);
      ghost var body := CurrentBody();
      assert mappings == old(mappings) + [];
      for i := 0 to |blocks[p].instructions| + 1
        invariant CurrentBody() == body
        invariant mappings == old(mappings) + BlockMappings(body, before, original, existing, p, i)
      {
        var target := SlotTarget(CurrentBody(), p, i);
        if NewSlot(CurrentBody(), known, p, i) && target !in existing {
          AppendAssociative(old(mappings), BlockMappings(body, before, original, existing, p, i), Mapping(target, original));
          mappings := mappings + [Mapping(target, original)];
        }
      }
    }

    method AnnotateSource(original: nat, before: seq<Snapshot>)
      modifies this`mappings, this`shift, this`originals, this`mapped
      ensures Value() == Annotate(old(Value()), original, before)
    {
      hide BlockMappings;
      FlushShifts();
      if original !in originals {
        originals := originals + [original];
      }
      var existing := Targets(mappings);
      ghost var flushed, body, nodes := mappings, CurrentBody(), originals;
      assert mappings == flushed + [];
      for p := 0 to |blocks|
        invariant CurrentBody() == body && originals == nodes && shift == None
        invariant mappings == flushed + NewMappings(body, before, original, existing, p)
      {
        AnnotateBlock(original, before, existing, p);
        ConcatAssociative(flushed, NewMappings(body, before, original, existing, p),
          BlockMappings(body, before, original, existing, p, |blocks[p].instructions| + 1));
      }
      mapped := true;
    }
  }

  lemma AppendAssociative(a: seq<Mapping>, b: seq<Mapping>, m: Mapping)
    ensures a + b + [m] == a + (b + [m])
  {
  }

  lemma ConcatAssociative(a: seq<Mapping>, b: seq<Mapping>, c: seq<Mapping>)
    ensures a + b + c == a + (b + c)
  {
  }

  /** A function whose building begins, in a module with metadata. */
  function Start(function_: nat, entry: nat, mappings: seq<Mapping>, originals: seq<nat>): Builder {
    Builder(Body(function_, entry, [Block(entry, [], false)], entry, 0, entry + 1), mappings, originals, None, false)
  }

  /** Targets that belong to other functions, or to globals. */
  predicate Foreign(function_: nat, target: Target) {
    target.GlobalAt? || target.function_ != function_
  }

  /** The IR operations of the module: those of the function, and those elsewhere. */
  predicate Present(body: Body, elsewhere: set<Target>, target: Target) {
    if Foreign(body.function_, target) then target in elsewhere else SubjectOf(body, target).Some?
  }

  /** `SourceMetadata::validate`: original nodes are unique, and every mapping has
      a known node and a target of its own that exists. */
  ghost predicate Valid(originals: seq<nat>, mappings: seq<Mapping>, body: Body, elsewhere: set<Target>) {
    && (forall j, k | 0 <= j < k < |originals| :: originals[j] != originals[k])
    && (forall k | 0 <= k < |mappings| ::
         mappings[k].original in originals && Present(body, elsewhere, mappings[k].target))
    && (forall j, k | 0 <= j < k < |mappings| :: mappings[j].target != mappings[k].target)
  }

  method Validate(originals: seq<nat>, mappings: seq<Mapping>, body: Body, elsewhere: set<Target>) returns (ok: bool)
    ensures ok <==> Valid(originals, mappings, body, elsewhere)
  {
    hide SubjectOf, Present;
    var nodes := {};
    for k := 0 to |originals|
      invariant forall id :: id in nodes <==> id in originals[..k]
      invariant forall i, j | 0 <= i < j < k :: originals[i] != originals[j]
    {
      if originals[k] in nodes {
        return false;
      }
      nodes := nodes + {originals[k]};
    }
    assert originals[..|originals|] == originals;
    var targets := {};
    for k := 0 to |mappings|
      invariant forall t :: t in targets <==> exists j: nat :: j < k && mappings[j].target == t
      invariant forall i, j | 0 <= i < j < k :: mappings[i].target != mappings[j].target
      invariant forall j | 0 <= j < k ::
        mappings[j].original in originals && Present(body, elsewhere, mappings[j].target)
    {
      var m := mappings[k];
      if m.original !in nodes || m.target in targets || !Present(body, elsewhere, m.target) {
        return false;
      }
      targets := targets + {m.target};
    }
    return true;
  }

  /** What holds of the nodes and of foreign targets throughout. */
  ghost predicate Known(b: Builder, elsewhere: set<Target>) {
    && (forall j, k | 0 <= j < k < |b.originals| :: b.originals[j] != b.originals[k])
    && (forall m | m in b.mappings ::
         m.original in b.originals && (Foreign(b.body.function_, m.target) ==> m.target in elsewhere))
  }

  lemma FlushKnows(b: Builder, elsewhere: set<Target>)
    requires Known(b, elsewhere)
    ensures Known(Flush(b), elsewhere)
  {
    forall m | m in Flush(b).mappings
      ensures m.original in b.originals && (Foreign(b.body.function_, m.target) ==> m.target in elsewhere)
    {
      var k: nat :| k < |b.mappings| && Flush(b).mappings[k] == m;
      assert b.mappings[k] in b.mappings;
    }
  }

  lemma {:induction false} BlockMappingsOwn(
    body: Body, before: seq<Snapshot>, original: nat, existing: set<Target>, p: nat, n: nat)
    requires p < |body.blocks| && n <= |body.blocks[p].instructions| + 1
    ensures forall m | m in BlockMappings(body, before, original, existing, p, n) ::
      m.original == original && !Foreign(body.function_, m.target)
  {
    hide NewSlot, Before;
    if n > 0 {
      BlockMappingsOwn(body, before, original, existing, p, n - 1);
    }
  }

  lemma {:induction false} NewMappingsOwn(
    body: Body, before: seq<Snapshot>, original: nat, existing: set<Target>, k: nat)
    requires k <= |body.blocks|
    ensures forall m | m in NewMappings(body, before, original, existing, k) ::
      m.original == original && !Foreign(body.function_, m.target)
  {
    hide BlockMappings, Foreign;
    if k > 0 {
      NewMappingsOwn(body, before, original, existing, k - 1);
      BlockMappingsOwn(body, before, original, existing, k - 1, |body.blocks[k - 1].instructions| + 1);
    }
  }

  lemma CallKnows(s: Session, call: Call, elsewhere: set<Target>)
    requires HasEntry(s.builder.body) && Known(s.builder, elsewhere)
    ensures Known(Apply(s, call).builder, elsewhere)
  {
    hide BodyAfter, NewMappings, Hoist, IndexOf;
    var b := s.builder;
    FlushKnows(b, elsewhere);
    KeepsEntry(b.body, call);
    if call.AnnotateCall? && call.checkpoint < |s.checkpoints| {
      NewMappingsOwn(b.body, s.checkpoints[call.checkpoint], call.original, Targets(Flush(b).mappings), |b.body.blocks|);
    }
  }

  lemma {:induction false} RunKnows(s: Session, calls: seq<Call>, n: nat, elsewhere: set<Target>)
    requires n <= |calls| && HasEntry(s.builder.body) && Known(s.builder, elsewhere)
    ensures Known(Run(s, calls, n).builder, elsewhere)
  {
    hide Known, Apply, HasEntry;
    if n > 0 {
      RunKnows(s, calls, n - 1, elsewhere);
      CallKnows(Run(s, calls, n - 1), calls[n - 1], elsewhere);
    }
  }

  function StartMarks(mappings: seq<Mapping>): (marks: seq<Mark>)
    ensures |marks| == |mappings|
  {
    seq(|mappings|, k requires 0 <= k < |mappings| => Mark(Elsewhere(mappings[k].target), mappings[k].original))
  }

  lemma StartAgrees(function_: nat, entry: nat, mappings: seq<Mapping>, originals: seq<nat>)
    requires forall m | m in mappings :: Foreign(function_, m.target)
    requires forall j, k | 0 <= j < k < |mappings| :: mappings[j].target != mappings[k].target
    ensures var b := Start(function_, entry, mappings, originals);
      Agree(Session(b, []), Tracker(b.body, StartMarks(mappings), []))
  {
  }

  /** The function built by a sequence of calls, after `finish`. */
  ghost function Finished(
    function_: nat, entry: nat, mappings: seq<Mapping>, originals: seq<nat>, calls: seq<Call>): Builder
  {
    Flush(Run(Session(Start(function_, entry, mappings, originals), []), calls, |calls|).builder)
  }

  ghost function FinishedMarks(
    function_: nat, entry: nat, mappings: seq<Mapping>, originals: seq<nat>, calls: seq<Call>): seq<Mark>
  {
    TrackRun(Tracker(Start(function_, entry, mappings, originals).body, StartMarks(mappings), []), calls, |calls|).marks
  }

  /** After any calls, every mapping of the finished function names exactly the
      instruction, terminator or foreign operation it was created for. */
  lemma FinishedNames(function_: nat, entry: nat, mappings: seq<Mapping>, originals: seq<nat>, calls: seq<Call>)
    requires forall m | m in mappings :: Foreign(function_, m.target)
    requires forall j, k | 0 <= j < k < |mappings| :: mappings[j].target != mappings[k].target
    ensures var b := Finished(function_, entry, mappings, originals, calls);
      var marks := FinishedMarks(function_, entry, mappings, originals, calls);
      && |b.mappings| == |marks| && DistinctSubjects(marks)
      && forall k | 0 <= k < |marks| ::
           b.mappings[k].original == marks[k].original
           && SubjectOf(b.body, b.mappings[k].target) == Some(marks[k].subject)
  {
    hide SubjectOf, Unique, Remembers, DistinctSubjects, ShiftSound, FlagSound, Run, TrackRun;
    var b := Start(function_, entry, mappings, originals);
    var t := Tracker(b.body, StartMarks(mappings), []);
    StartAgrees(function_, entry, mappings, originals);
    RunAgrees(Session(b, []), t, calls, |calls|);
    FlushDenotes(Run(Session(b, []), calls, |calls|).builder, TrackRun(t, calls, |calls|).marks);
  }

  /** The metadata of a module stays valid when a function is built and finished. */
  lemma FinishedValid(
    function_: nat, entry: nat, mappings: seq<Mapping>, originals: seq<nat>, calls: seq<Call>, elsewhere: set<Target>)
    requires forall m | m in mappings :: Foreign(function_, m.target)
    requires Valid(originals, mappings, Start(function_, entry, mappings, originals).body, elsewhere)
    ensures var b := Finished(function_, entry, mappings, originals, calls);
      Valid(b.originals, b.mappings, b.body, elsewhere)
  {
    hide SubjectOf, Run, TrackRun, Foreign;
    var start := Start(function_, entry, mappings, originals);
    FinishedNames(function_, entry, mappings, originals, calls);
    StartKnown(function_, entry, mappings, originals, elsewhere);
    RunKnows(Session(start, []), calls, |calls|, elsewhere);
    FlushKnows(Run(Session(start, []), calls, |calls|).builder, elsewhere);
    var b := Finished(function_, entry, mappings, originals, calls);
    assert forall k | 0 <= k < |b.mappings| :: b.mappings[k] in b.mappings;
    var marks := FinishedMarks(function_, entry, mappings, originals, calls);
    forall j, k | 0 <= j < k < |b.mappings| ensures b.mappings[j].target != b.mappings[k].target {
      assert marks[j].subject != marks[k].subject;
    }
  }

  lemma StartKnown(function_: nat, entry: nat, mappings: seq<Mapping>, originals: seq<nat>, elsewhere: set<Target>)
    requires forall m | m in mappings :: Foreign(function_, m.target)
    requires Valid(originals, mappings, Start(function_, entry, mappings, originals).body, elsewhere)
    ensures Known(Start(function_, entry, mappings, originals), elsewhere)
    ensures HasEntry(Start(function_, entry, mappings, originals).body)
  {
  }

  /** How many checkpoints the first `n` calls take. */
  ghost function Checkpoints(calls: seq<Call>, n: nat): nat
    requires n <= |calls|
  {
    if n == 0 then 0 else Checkpoints(calls, n - 1) + if calls[n - 1].CheckpointCall? then 1 else 0
  }

  /** One of the first `n` calls annotates with this original, since a checkpoint that was taken. */
  ghost predicate Annotates(calls: seq<Call>, n: nat, original: nat)
    requires n <= |calls|
  {
    exists k: nat | k < n :: AnnotatesAt(calls, k, original)
  }

  ghost predicate AnnotatesAt(calls: seq<Call>, k: nat, original: nat)
    requires k < |calls|
  {
    calls[k].AnnotateCall? && calls[k].original == original && calls[k].checkpoint < Checkpoints(calls, k)
  }

  /** The originals are those that were there and those that an annotation names;
      each earlier one keeps its place. */
  lemma {:induction false} OriginalsRetained(b: Builder, calls: seq<Call>, n: nat)
    requires n <= |calls| && HasEntry(b.body)
    ensures var after := Run(Session(b, []), calls, n);
      && |after.checkpoints| == Checkpoints(calls, n)
      && b.originals <= after.builder.originals
      && forall id :: id in after.builder.originals <==> id in b.originals || Annotates(calls, n, id)
  {
    hide HasEntry, BodyAfter, NewMappings, AdjustedMappings, Snapshots;
    if n > 0 {
      OriginalsRetained(b, calls, n - 1);
      var before := Run(Session(b, []), calls, n - 1);
      assert forall id :: Annotates(calls, n, id) <==> Annotates(calls, n - 1, id) || AnnotatesAt(calls, n - 1, id);
    }
  }
}
