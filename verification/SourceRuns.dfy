/**
  Source mappings over whole runs of the builder: after any sequence of calls
  every mapping names the instruction it was created for, annotations map
  exactly the new instructions, and the finished metadata is valid.
 */
module SourceRuns {
  import opened Wrappers
  import opened SourceBuilder
  import opened SourceTracking
  import opened SourceRefinement

  lemma FlushDenotes(b: Builder, marks: seq<Mark>)
    requires Denotes(b.body, b.shift, b.mappings, marks)
    ensures Denotes(b.body, None, Flush(b).mappings, marks)
  {
    hide SubjectOf;
  }

  lemma FlushKeepsOthers(b: Builder)
    requires FlagSound(b)
    ensures FlagSound(Flush(b))
  {
    if !b.mapped {
      assert forall m | m in Flush(b).mappings :: m in b.mappings;
    }
  }

  /** A target is mapped exactly when what it names is marked. */
  lemma MappedIsMarked(body: Body, mappings: seq<Mapping>, marks: seq<Mark>, target: Target)
    requires Sound(body) && Denotes(body, None, mappings, marks) && SubjectOf(body, target).Some?
    ensures target in Targets(mappings) <==> SubjectOf(body, target).value in Subjects(marks)
  {
    hide Unique, SubjectOf, HasEntry;
    if target in Targets(mappings) {
      var m :| m in mappings && m.target == target;
      var k: nat :| k < |mappings| && mappings[k] == m;
      assert marks[k] in marks;
    }
    if SubjectOf(body, target).value in Subjects(marks) {
      var m :| m in marks && m.subject == SubjectOf(body, target).value;
      var k: nat :| k < |marks| && marks[k] == m;
      NamesOnce(body, target, mappings[k].target);
      assert mappings[k] in mappings;
    }
  }

  /** The index arithmetic of a checkpoint finds exactly the new slots. */
  lemma NewIsCreatedSince(body: Body, before: seq<Snapshot>, moment: Moment, p: nat, i: nat)
    requires Remembers(body, before, moment) && p < |body.blocks| && i <= |body.blocks[p].instructions|
    ensures NewSlot(body, Before(before, body.blocks[p].id), p, i) <==> CreatedSince(body, moment, p, i)
  {
    hide Before, Allocas;
  }

  lemma {:induction false} BlockPairs(
    body: Body, before: seq<Snapshot>, moment: Moment, original: nat, mappings: seq<Mapping>, marks: seq<Mark>,
    p: nat, n: nat)
    requires Sound(body) && Remembers(body, before, moment) && Denotes(body, None, mappings, marks)
    requires p < |body.blocks| && n <= |body.blocks[p].instructions| + 1
    ensures Denotes(body, None,
      BlockMappings(body, before, original, Targets(mappings), p, n),
      BlockMarks(body, moment, original, Subjects(marks), p, n))
  {
    hide Unique, SubjectOf, Remembers, Before, SlotTarget, SlotSubject, NewSlot;
    if n > 0 {
      BlockPairs(body, before, moment, original, mappings, marks, p, n - 1);
      NewIsCreatedSince(body, before, moment, p, n - 1);
      if CreatedSince(body, moment, p, n - 1) {
        SlotNames(body, p, n - 1);
        MappedIsMarked(body, mappings, marks, SlotTarget(body, p, n - 1));
      }
    }
  }

  lemma {:induction false} NewPairs(
    body: Body, before: seq<Snapshot>, moment: Moment, original: nat, mappings: seq<Mapping>, marks: seq<Mark>, k: nat)
    requires Sound(body) && Remembers(body, before, moment) && Denotes(body, None, mappings, marks)
    requires k <= |body.blocks|
    ensures Denotes(body, None,
      NewMappings(body, before, original, Targets(mappings), k),
      NewMarks(body, moment, original, Subjects(marks), k))
  {
    hide Sound, SubjectOf, Remembers, BlockMappings, BlockMarks;
    if k > 0 {
      NewPairs(body, before, moment, original, mappings, marks, k - 1);
      BlockPairs(body, before, moment, original, mappings, marks, k - 1, |body.blocks[k - 1].instructions| + 1);
    }
  }

  predicate IsSlot(body: Body, p: nat, i: nat) {
    p < |body.blocks| && i <= |body.blocks[p].instructions|
  }

  lemma SlotsDistinct(body: Body, p: nat, i: nat, q: nat, j: nat)
    requires Sound(body) && IsSlot(body, p, i) && IsSlot(body, q, j) && (p != q || i != j)
    ensures SlotSubject(body, p, i) != SlotSubject(body, q, j)
  {
  }

  /** Slot `i` of block `p` comes before slot `n` of block `k`. */
  predicate Earlier(p: nat, i: nat, k: nat, n: nat) {
    p < k || (p == k && i < n)
  }

  /** The marks of an annotation: every new slot before `(k, n)` that is not yet
      marked, once, and nothing else. */
  ghost predicate MarksExactly(
    body: Body, moment: Moment, original: nat, marked: set<Subject>, new_: seq<Mark>, k: nat, n: nat)
  {
    && DistinctSubjects(new_)
    && (forall p: nat, i: nat | IsSlot(body, p, i) && Earlier(p, i, k, n) ::
         (CreatedSince(body, moment, p, i) && SlotSubject(body, p, i) !in marked)
           <==> Mark(SlotSubject(body, p, i), original) in new_)
    && (forall m | m in new_ :: exists p: nat, i: nat ::
         IsSlot(body, p, i) && Earlier(p, i, k, n) && m == Mark(SlotSubject(body, p, i), original))
  }

  lemma MarksNext(
    body: Body, moment: Moment, original: nat, marked: set<Subject>, new_: seq<Mark>, p: nat, i: nat)
    requires Sound(body) && IsSlot(body, p, i) && MarksExactly(body, moment, original, marked, new_, p, i)
    ensures var take := CreatedSince(body, moment, p, i) && SlotSubject(body, p, i) !in marked;
      MarksExactly(body, moment, original, marked,
        if take then new_ + [Mark(SlotSubject(body, p, i), original)] else new_, p, i + 1)
  {
    hide Sound, SlotSubject, CreatedSince;
    forall q: nat, j: nat | IsSlot(body, q, j) && Earlier(q, j, p, i)
      ensures SlotSubject(body, q, j) != SlotSubject(body, p, i)
    {
      SlotsDistinct(body, q, j, p, i);
    }
    var mark := Mark(SlotSubject(body, p, i), original);
    forall m | m in new_
      ensures m.subject != mark.subject
      ensures exists q: nat, j: nat ::
        IsSlot(body, q, j) && Earlier(q, j, p, i + 1) && m == Mark(SlotSubject(body, q, j), original)
    {
      var q: nat, j: nat :| IsSlot(body, q, j) && Earlier(q, j, p, i) && m == Mark(SlotSubject(body, q, j), original);
      assert Earlier(q, j, p, i + 1);
    }
    assert Earlier(p, i, p, i + 1);
    var taken := new_ + [mark];
    assert forall k: nat | k < |new_| :: new_[k] in new_;
    assert DistinctSubjects(taken);
  }

  lemma {:induction false} BlockMarksExactly(
    body: Body, moment: Moment, original: nat, marked: set<Subject>, rest: seq<Mark>, p: nat, n: nat)
    requires Sound(body) && p < |body.blocks| && n <= |body.blocks[p].instructions| + 1
    requires MarksExactly(body, moment, original, marked, rest, p, 0)
    ensures MarksExactly(body, moment, original, marked,
      rest + BlockMarks(body, moment, original, marked, p, n), p, n)
  {
    hide MarksExactly, Sound;
    if n > 0 {
      BlockMarksExactly(body, moment, original, marked, rest, p, n - 1);
      var before := BlockMarks(body, moment, original, marked, p, n - 1);
      MarksNext(body, moment, original, marked, rest + before, p, n - 1);
      var mark := Mark(SlotSubject(body, p, n - 1), original);
      assert rest + before + [mark] == rest + (before + [mark]);
    } else {
      assert rest + [] == rest;
    }
  }

  lemma NextBlockExactly(
    body: Body, moment: Moment, original: nat, marked: set<Subject>, new_: seq<Mark>, p: nat)
    requires p < |body.blocks|
    requires MarksExactly(body, moment, original, marked, new_, p, |body.blocks[p].instructions| + 1)
    ensures MarksExactly(body, moment, original, marked, new_, p + 1, 0)
  {
    hide SlotSubject, CreatedSince;
    forall m | m in new_
      ensures exists q: nat, i: nat ::
        IsSlot(body, q, i) && Earlier(q, i, p + 1, 0) && m == Mark(SlotSubject(body, q, i), original)
    {
      var q: nat, i: nat :| IsSlot(body, q, i) && Earlier(q, i, p, |body.blocks[p].instructions| + 1)
        && m == Mark(SlotSubject(body, q, i), original);
      assert IsSlot(body, q, i) && Earlier(q, i, p + 1, 0);
    }
  }

  /** An annotation marks exactly what was created since its checkpoint and is not
      yet marked, each thing once. */
  lemma {:induction false} AnnotationIsExact(body: Body, moment: Moment, original: nat, marked: set<Subject>, k: nat)
    requires Sound(body) && k <= |body.blocks|
    ensures MarksExactly(body, moment, original, marked, NewMarks(body, moment, original, marked, k), k, 0)
  {
    hide Sound, BlockMarks;
    if k > 0 {
      hide MarksExactly;
      AnnotationIsExact(body, moment, original, marked, k - 1);
      var rest := NewMarks(body, moment, original, marked, k - 1);
      var n := |body.blocks[k - 1].instructions| + 1;
      BlockMarksExactly(body, moment, original, marked, rest, k - 1, n);
      NextBlockExactly(body, moment, original, marked, rest + BlockMarks(body, moment, original, marked, k - 1, n), k - 1);
    }
  }

  lemma MarksStayDistinct(body: Body, moment: Moment, original: nat, marks: seq<Mark>)
    requires Sound(body) && DistinctSubjects(marks)
    ensures DistinctSubjects(marks + NewMarks(body, moment, original, Subjects(marks), |body.blocks|))
  {
    hide Sound, NewMarks, CreatedSince, SlotSubject;
    var new_ := NewMarks(body, moment, original, Subjects(marks), |body.blocks|);
    AnnotationIsExact(body, moment, original, Subjects(marks), |body.blocks|);
    forall j: nat, k: nat | j < |marks| && k < |new_| ensures marks[j].subject != new_[k].subject {
      assert new_[k] in new_ && marks[j] in marks;
    }
  }

  lemma AnnotateAgrees(s: Session, t: Tracker, original: nat, k: nat)
    requires Agree(s, t) && k < |t.moments|
    ensures Agree(Apply(s, AnnotateCall(original, k)), Track(t, AnnotateCall(original, k)))
  {
    hide Sound, SubjectOf, NewMappings, NewMarks, Remembers, DistinctSubjects;
    var b, body := s.builder, t.body;
    FlushDenotes(b, t.marks);
    var flushed := Flush(b);
    NewPairs(body, s.checkpoints[k], t.moments[k], original, flushed.mappings, t.marks, |body.blocks|);
    MarksStayDistinct(body, t.moments[k], original, t.marks);
  }

  lemma CheckpointAgrees(s: Session, t: Tracker)
    requires Agree(s, t)
    ensures Agree(Apply(s, CheckpointCall), Track(t, CheckpointCall))
  {
    hide Unique, SubjectOf, Remembers, DistinctSubjects;
    FlushDenotes(s.builder, t.marks);
    FlushKeepsOthers(s.builder);
    CheckpointRemembers(t.body);
  }

  lemma FlushAgrees(s: Session, t: Tracker)
    requires Agree(s, t)
    ensures Agree(Apply(s, FlushCall), Track(t, FlushCall))
  {
    hide Unique, SubjectOf, Remembers, DistinctSubjects;
    FlushDenotes(s.builder, t.marks);
    FlushKeepsOthers(s.builder);
  }

  lemma HoistAgrees(s: Session, t: Tracker)
    requires Agree(s, t)
    ensures Agree(Apply(s, AllocaInEntryCall), Track(t, AllocaInEntryCall))
  {
    hide Unique, SubjectOf, Remembers, DistinctSubjects, Denotes, ShiftSound, FlagSound, Hoist;
    HoistDenotes(s.builder, t.marks);
    HoistShift(s.builder);
    HoistSound(t.body);
    forall k | 0 <= k < |t.moments| ensures Remembers(Hoist(t.body), s.checkpoints[k], t.moments[k]) {
      HoistRemembers(t.body, s.checkpoints[k], t.moments[k]);
    }
  }

  /** Calls that only let the function grow at its ends. */
  predicate GrowsAtEnd(call: Call) {
    call.AppendCall? || call.TerminateCall? || call.CreateBlockCall? || call.SetInsertPointCall?
  }

  /** The leading allocas of the entry stay as they are, or ran to its end. */
  ghost predicate EntryKept(before: Body, after: Body)
    requires HasEntry(before)
  {
    && HasEntry(after)
    && var old_, new_ := EntryCode(before), EntryCode(after);
       && Allocas(old_) <= Allocas(new_)
       && (Allocas(old_) < |old_| ==> Allocas(new_) == Allocas(old_))
  }

  lemma AppendEntry(body: Body, kind: Kind)
    requires HasEntry(body) && Append(body, kind).Success?
    ensures EntryKept(body, Append(body, kind).value)
  {
    hide IndexOf, Allocas;
    var p := Insertable(body).value;
    var after := Append(body, kind).value;
    ReplaceIndex(body.blocks, p, after.blocks[p], body.entry);
    AllocasAppend(body.blocks[p].instructions, Instruction(kind, body.created));
  }

  lemma GrowthKeeps(body: Body, call: Call)
    requires Sound(body) && GrowsAtEnd(call)
    ensures var after := BodyAfter(body, call);
      Sound(after) && Extends(body, after) && EntryKept(body, after)
  {
    hide Unique, IndexOf, Allocas, SubjectOf, Append, Terminate;
    if call.AppendCall? && Append(body, call.kind).Success? {
      AppendSound(body, call.kind);
      AppendExtends(body, call.kind);
      AppendEntry(body, call.kind);
    } else if call.TerminateCall? && Terminate(body).Success? {
      TerminateExtends(body);
      TerminateEntry(body);
    } else if call.CreateBlockCall? {
      CreateBlockExtends(body);
      NewBlockIndex(body.blocks, Block(body.nextBlock, [], false), body.entry);
    } else {
      InsertPointExtends(body, BodyAfter(body, call));
    }
  }

  lemma TerminateEntry(body: Body)
    requires HasEntry(body) && Terminate(body).Success?
    ensures EntryKept(body, Terminate(body).value)
  {
    hide IndexOf, Allocas;
    var p := Insertable(body).value;
    ReplaceIndex(body.blocks, p, Terminate(body).value.blocks[p], body.entry);
  }

  lemma InsertPointExtends(body: Body, after: Body)
    requires Sound(body) && after.(insert := body.insert) == body
    ensures Sound(after) && Extends(body, after)
  {
  }

  lemma GrowthRemembers(body: Body, call: Call, before: seq<Snapshot>, moment: Moment)
    requires Sound(body) && GrowsAtEnd(call) && Remembers(body, before, moment)
    ensures Remembers(BodyAfter(body, call), before, moment)
  {
    hide Unique, Append, Terminate, Grew, Before;
    if call.AppendCall? && Append(body, call.kind).Success? {
      AppendRemembers(body, call.kind, before, moment);
    } else if call.TerminateCall? && Terminate(body).Success? {
      TerminateRemembers(body, before, moment);
    } else if call.CreateBlockCall? {
      CreateBlockRemembers(body, before, moment);
    }
  }

  lemma TerminateRemembers(body: Body, before: seq<Snapshot>, moment: Moment)
    requires Remembers(body, before, moment) && Terminate(body).Success?
    ensures Remembers(Terminate(body).value, before, moment)
  {
    hide Before, IndexOf, Allocas;
    ReplaceRemembers(body, Terminate(body).value, Insertable(body).value, before, moment);
  }

  lemma GrowthDenotes(b: Builder, after: Body, marks: seq<Mark>)
    requires Denotes(b.body, b.shift, b.mappings, marks) && Extends(b.body, after)
    ensures Denotes(after, b.shift, b.mappings, marks)
  {
    hide SubjectOf;
  }

  lemma GrowthShift(b: Builder, after: Body, marks: seq<Mark>)
    requires HasEntry(b.body) && ShiftSound(b) && FlagSound(b) && Denotes(b.body, b.shift, b.mappings, marks)
    requires Extends(b.body, after) && EntryKept(b.body, after)
    ensures ShiftSound(b.(body := after)) && FlagSound(b.(body := after))
  {
    hide Allocas, Extends, IndexOf;
    assert after.function_ == b.body.function_ && after.entry == b.body.entry by { ExtendsSameFunction(b.body, after); }
    if b.shift.Some? {
      forall m | m in b.mappings && InEntry(after, m.target) && m.target.index >= b.shift.value.position
        ensures m.target.index + b.shift.value.count >= Allocas(EntryCode(after))
      {
        var k: nat :| k < |b.mappings| && b.mappings[k] == m;
        assert SubjectOf(b.body, Adjusted(b.body, b.shift, m.target)).Some?;
      }
    }
  }

  lemma ExtendsSameFunction(before: Body, after: Body)
    requires Extends(before, after)
    ensures after.function_ == before.function_ && after.entry == before.entry
  {
  }

  lemma GrowthAgrees(s: Session, t: Tracker, call: Call)
    requires Agree(s, t) && GrowsAtEnd(call)
    ensures Agree(Apply(s, call), Track(t, call))
  {
    hide Unique, Remembers, DistinctSubjects, Denotes, ShiftSound, FlagSound, Extends, EntryKept, BodyAfter;
    var after := BodyAfter(t.body, call);
    GrowthKeeps(t.body, call);
    GrowthDenotes(s.builder, after, t.marks);
    GrowthShift(s.builder, after, t.marks);
    forall k | 0 <= k < |t.moments| ensures Remembers(after, s.checkpoints[k], t.moments[k]) {
      GrowthRemembers(t.body, call, s.checkpoints[k], t.moments[k]);
    }
  }

  /** Every call keeps the builder and the tracker in agreement. */
  lemma CallAgrees(s: Session, t: Tracker, call: Call)
    requires Agree(s, t)
    ensures Agree(Apply(s, call), Track(t, call))
  {
    hide Sound, Remembers, DistinctSubjects, Denotes, ShiftSound, FlagSound, BodyAfter;
    if GrowsAtEnd(call) {
      GrowthAgrees(s, t, call);
    } else if call.AllocaInEntryCall? {
      HoistAgrees(s, t);
    } else if call.CheckpointCall? {
      CheckpointAgrees(s, t);
    } else if call.FlushCall? {
      FlushAgrees(s, t);
    } else if call.checkpoint < |t.moments| {
      AnnotateAgrees(s, t, call.original, call.checkpoint);
    }
  }

  ghost function Run(s: Session, calls: seq<Call>, n: nat): (r: Session)
    requires n <= |calls| && HasEntry(s.builder.body)
    ensures HasEntry(r.builder.body)
  {
    if n == 0 then s else Apply(Run(s, calls, n - 1), calls[n - 1])
  }

  ghost function TrackRun(t: Tracker, calls: seq<Call>, n: nat): (r: Tracker)
    requires n <= |calls| && HasEntry(t.body)
    ensures HasEntry(r.body)
  {
    if n == 0 then t
    else
      var before := TrackRun(t, calls, n - 1);
      KeepsEntry(before.body, calls[n - 1]);
      Track(before, calls[n - 1])
  }

  lemma {:induction false} RunAgrees(s: Session, t: Tracker, calls: seq<Call>, n: nat)
    requires n <= |calls| && Agree(s, t)
    ensures Agree(Run(s, calls, n), TrackRun(t, calls, n))
  {
    hide Unique, Remembers, DistinctSubjects, Denotes, ShiftSound, FlagSound, Apply, Track;
    if n > 0 {
      RunAgrees(s, t, calls, n - 1);
      CallAgrees(Run(s, calls, n - 1), TrackRun(t, calls, n - 1), calls[n - 1]);
    }
  }
}
