/** Whole runs of passes: each branch length follows near*, short*, near*, so
    at most two changes per branch, so a bounded number of passes. */
module Amd64Convergence {
  import opened AsmSections
  import opened Wrappers
  import opened Amd64Program
  import opened Amd64Layout
  import opened Amd64Encode
  import opened Amd64LayoutProof
  import opened Amd64CodeProof

  ghost predicate Follows(nodes: seq<Node>, maxOutput: nat, p: Pass, q: Pass) {
    && HintFits(Some(p.layout), |nodes|)
    && IsPass(nodes, Some(p.layout), p.forced, maxOutput, Success(q))
  }

  /** The passes that a relaxation goes through, from the first one on. */
  ghost predicate IsRun(nodes: seq<Node>, maxOutput: nat, run: seq<Pass>) {
    && (run != [] ==> IsPass(nodes, None, {}, maxOutput, Success(run[0])))
    && forall p | 0 <= p < |run| - 1 :: Follows(nodes, maxOutput, run[p], run[p + 1])
  }

  /** A pinned branch was near when it was pinned. */
  ghost predicate PinsAreNear(nodes: seq<Node>, pass: Pass) {
    && |pass.layout.lengths| == |nodes|
    && forall i: nat | i in pass.forced ::
         i < |nodes| && nodes[i].IsRelaxable() && pass.layout.lengths[i] > 2
  }

  lemma PassLengths(
    nodes: seq<Node>, hint: Option<Layout>, forced: set<nat>, maxOutput: nat, pass: Pass)
    requires HintFits(hint, |nodes|) && IsPass(nodes, hint, forced, maxOutput, Success(pass))
    ensures |pass.layout.lengths| == |nodes|
    ensures forall i | 0 <= i < |nodes| ::
      LengthFits(nodes[i], pass.layout.lengths[i], i in forced)
    ensures PinsExactly(nodes, |nodes|, hint, forced, pass.layout.lengths, pass.forced)
  {
    hide Run;
    RunLengths(nodes, |nodes|, hint, forced, maxOutput);
  }

  lemma {:induction false} RunPins(nodes: seq<Node>, maxOutput: nat, run: seq<Pass>, p: nat)
    requires ValidProgram(nodes) && IsRun(nodes, maxOutput, run) && p < |run|
    ensures PinsAreNear(nodes, run[p])
  {
    hide IsPass;
    if p == 0 {
      PassLengths(nodes, None, {}, maxOutput, run[0]);
    } else {
      RunPins(nodes, maxOutput, run, p - 1);
      assert Follows(nodes, maxOutput, run[p - 1], run[p]);
      PassLengths(nodes, Some(run[p - 1].layout), run[p - 1].forced, maxOutput, run[p]);
      forall i: nat | i in run[p].forced
        ensures i < |nodes| && nodes[i].IsRelaxable() && run[p].layout.lengths[i] > 2
      {
        if i in run[p - 1].forced {
          assert ValidNode(nodes[i]);
          assert LengthFits(nodes[i], run[p].layout.lengths[i], true);
        }
      }
    }
  }

  /** How often the length of branch `i` can still change after `pass`. */
  ghost function ChangesLeft(nodes: seq<Node>, pass: Pass, i: nat): (n: nat)
    requires i < |nodes| == |pass.layout.lengths|
    ensures n <= 2
  {
    if !nodes[i].IsRelaxable() || i in pass.forced then 0
    else if pass.layout.lengths[i] == 2 then 1
    else 2
  }

  lemma ChangesFall(nodes: seq<Node>, maxOutput: nat, p: Pass, q: Pass, i: nat)
    requires ValidProgram(nodes) && Follows(nodes, maxOutput, p, q) && PinsAreNear(nodes, p)
    requires i < |nodes|
    requires forall j | 0 <= j < |nodes| :: LengthFits(nodes[j], p.layout.lengths[j], false)
    ensures |q.layout.lengths| == |nodes|
    ensures ChangesLeft(nodes, q, i) <= ChangesLeft(nodes, p, i)
    ensures q.layout.lengths[i] != p.layout.lengths[i] ==>
      ChangesLeft(nodes, q, i) < ChangesLeft(nodes, p, i)
  {
    hide IsPass;
    PassLengths(nodes, Some(p.layout), p.forced, maxOutput, q);
    assert ValidNode(nodes[i]);
    assert LengthFits(nodes[i], q.layout.lengths[i], i in p.forced);
    assert LengthFits(nodes[i], p.layout.lengths[i], false);
  }

  lemma RunLengthsFit(nodes: seq<Node>, maxOutput: nat, run: seq<Pass>, p: nat)
    requires IsRun(nodes, maxOutput, run) && p < |run|
    ensures |run[p].layout.lengths| == |nodes|
    ensures forall j | 0 <= j < |nodes| :: LengthFits(nodes[j], run[p].layout.lengths[j], false)
  {
    hide IsPass;
    if p == 0 {
      PassLengths(nodes, None, {}, maxOutput, run[0]);
    } else {
      assert Follows(nodes, maxOutput, run[p - 1], run[p]);
      PassLengths(nodes, Some(run[p - 1].layout), run[p - 1].forced, maxOutput, run[p]);
    }
  }

  /** Between any two passes of a run the number of changes left only falls. */
  lemma {:induction false} ChangesFallAlong(
    nodes: seq<Node>, maxOutput: nat, run: seq<Pass>, p: nat, q: nat, i: nat)
    requires ValidProgram(nodes) && IsRun(nodes, maxOutput, run) && p <= q < |run| && i < |nodes|
    ensures |run[p].layout.lengths| == |run[q].layout.lengths| == |nodes|
    ensures ChangesLeft(nodes, run[q], i) <= ChangesLeft(nodes, run[p], i)
  {
    hide IsPass, LengthFits;
    RunLengthsFit(nodes, maxOutput, run, q);
    if p < q {
      ChangesFallAlong(nodes, maxOutput, run, p, q - 1, i);
      RunLengthsFit(nodes, maxOutput, run, q - 1);
      RunPins(nodes, maxOutput, run, q - 1);
      ChangesFall(nodes, maxOutput, run[q - 1], run[q], i);
    }
  }

  /** No branch is short, then near, then short again: every length sequence
      reads near*, short*, near*. */
  lemma NearShortNear(
    nodes: seq<Node>, maxOutput: nat, run: seq<Pass>, p: nat, q: nat, r: nat, i: nat)
    requires ValidProgram(nodes) && IsRun(nodes, maxOutput, run)
    requires p < q < r < |run| && i < |nodes| && nodes[i].IsRelaxable()
    ensures |run[p].layout.lengths| == |run[q].layout.lengths| == |run[r].layout.lengths| == |nodes|
    ensures !(run[p].layout.lengths[i] == 2 && run[q].layout.lengths[i] != 2
              && run[r].layout.lengths[i] == 2)
  {
    hide IsPass, LengthFits;
    ChangesFallAlong(nodes, maxOutput, run, p, q, i);
    ChangesFallAlong(nodes, maxOutput, run, q, r, i);
    RunPins(nodes, maxOutput, run, r);
  }

  /** How often the length of node `i` differs from the pass before. */
  ghost function Changes(run: seq<Pass>, i: nat): nat
    requires forall p | 0 <= p < |run| :: i < |run[p].layout.lengths|
  {
    if |run| < 2 then 0
    else
      var n := |run| - 1;
      Changes(run[..n], i)
      + if run[n].layout.lengths[i] != run[n - 1].layout.lengths[i] then 1 else 0
  }

  lemma {:induction false} AtMostTwoChanges(
    nodes: seq<Node>, maxOutput: nat, run: seq<Pass>, i: nat)
    requires ValidProgram(nodes) && IsRun(nodes, maxOutput, run) && run != [] && i < |nodes|
    ensures forall p | 0 <= p < |run| :: |run[p].layout.lengths| == |nodes|
    ensures Changes(run, i) + ChangesLeft(nodes, run[|run| - 1], i) <= 2
  {
    hide IsPass, LengthFits;
    forall p | 0 <= p < |run|
      ensures |run[p].layout.lengths| == |nodes|
    {
      RunLengthsFit(nodes, maxOutput, run, p);
    }
    var n := |run| - 1;
    if n > 0 {
      assert IsRun(nodes, maxOutput, run[..n]) by {
        forall p | 0 <= p < n - 1
          ensures Follows(nodes, maxOutput, run[..n][p], run[..n][p + 1])
        {
          assert Follows(nodes, maxOutput, run[p], run[p + 1]);
        }
      }
      AtMostTwoChanges(nodes, maxOutput, run[..n], i);
      RunPins(nodes, maxOutput, run, n - 1);
      RunLengthsFit(nodes, maxOutput, run, n - 1);
      ChangesFall(nodes, maxOutput, run[n - 1], run[n], i);
    }
  }

  /** The number of branches that can change length, among the first `k` nodes. */
  function Branches(nodes: seq<Node>, k: nat): nat
    requires k <= |nodes|
  {
    if k == 0 then 0 else Branches(nodes, k - 1) + if nodes[k - 1].IsRelaxable() then 1 else 0
  }

  ghost function TotalLeft(nodes: seq<Node>, pass: Pass, k: nat): (n: nat)
    requires k <= |nodes| == |pass.layout.lengths|
    ensures n <= 2 * Branches(nodes, k)
  {
    if k == 0 then 0 else TotalLeft(nodes, pass, k - 1) + ChangesLeft(nodes, pass, k - 1)
  }

  lemma {:induction false} TotalFalls(nodes: seq<Node>, p: Pass, q: Pass, k: nat, changed: nat)
    requires k <= |nodes| == |p.layout.lengths| == |q.layout.lengths|
    requires forall i | 0 <= i < k :: ChangesLeft(nodes, q, i) <= ChangesLeft(nodes, p, i)
    requires changed < |nodes| && ChangesLeft(nodes, q, changed) < ChangesLeft(nodes, p, changed)
    ensures TotalLeft(nodes, q, k) + (if changed < k then 1 else 0) <= TotalLeft(nodes, p, k)
  {
    if k > 0 {
      TotalFalls(nodes, p, q, k - 1, changed);
    }
  }

  /** A pass with the same lengths as the one before has the same layout. */
  lemma EqualLengthsEqualLayouts(nodes: seq<Node>, maxOutput: nat, run: seq<Pass>, p: nat, q: nat)
    requires IsRun(nodes, maxOutput, run) && p < |run| && q < |run|
    requires run[p].layout.lengths == run[q].layout.lengths
    ensures run[p].layout == run[q].layout
  {
    hide IsPass, LayoutOf;
    forall r | 0 <= r < |run|
      ensures |run[r].layout.lengths| == |nodes|
      ensures run[r].layout == LayoutOf(nodes, run[r].layout.lengths)
    {
      if r == 0 {
        PassLayout(nodes, None, {}, maxOutput, run[0]);
      } else {
        assert Follows(nodes, maxOutput, run[r - 1], run[r]);
        PassLayout(nodes, Some(run[r - 1].layout), run[r - 1].forced, maxOutput, run[r]);
      }
    }
  }

  ghost predicate KeepsMoving(run: seq<Pass>) {
    forall p | 0 <= p < |run| - 1 :: run[p].layout != run[p + 1].layout
  }

  /** Relaxation that has not settled yet has used up one change per pass. */
  lemma {:induction false} MovingUsesChanges(
    nodes: seq<Node>, maxOutput: nat, run: seq<Pass>, p: nat)
    requires ValidProgram(nodes) && IsRun(nodes, maxOutput, run) && KeepsMoving(run) && p < |run|
    ensures |run[p].layout.lengths| == |nodes|
    ensures p + TotalLeft(nodes, run[p], |nodes|) <= 2 * Branches(nodes, |nodes|)
  {
    hide IsPass, LengthFits, ChangesLeft;
    RunLengthsFit(nodes, maxOutput, run, p);
    if p > 0 {
      MovingUsesChanges(nodes, maxOutput, run, p - 1);
      RunPins(nodes, maxOutput, run, p - 1);
      RunLengthsFit(nodes, maxOutput, run, p - 1);
      var a, b := run[p - 1].layout.lengths, run[p].layout.lengths;
      if a == b {
        EqualLengthsEqualLayouts(nodes, maxOutput, run, p - 1, p);
      }
      var i: nat :| i < |nodes| && a[i] != b[i];
      forall j | 0 <= j < |nodes|
        ensures ChangesLeft(nodes, run[p], j) <= ChangesLeft(nodes, run[p - 1], j)
        ensures a[j] != b[j] ==> ChangesLeft(nodes, run[p], j) < ChangesLeft(nodes, run[p - 1], j)
      {
        ChangesFall(nodes, maxOutput, run[p - 1], run[p], j);
      }
      TotalFalls(nodes, run[p - 1], run[p], |nodes|, i);
    }
  }

  /** With B branches, a run that never repeats a layout has at most 2B + 1 passes. */
  lemma RelaxationSettles(nodes: seq<Node>, maxOutput: nat, run: seq<Pass>)
    requires ValidProgram(nodes) && IsRun(nodes, maxOutput, run) && KeepsMoving(run)
    ensures |run| <= 2 * Branches(nodes, |nodes|) + 1
  {
    if run != [] {
      MovingUsesChanges(nodes, maxOutput, run, |run| - 1);
    }
  }
}
