/** The per-function driver: propagation, folding and dead-code elimination
    repeated until none of them reports a change, then common-subexpression
    elimination and one more dead-code elimination.  Functions are optimized
    one after the other, in module order. */
module Orchestrator {
  import opened IR
  import opened LocalOptimizations
  import opened GlobalOptimizations

  /** A body on which none of the three passes of the fixpoint finds anything
      to do: no load has a reaching constant under the least solution, no
      instruction folds, and no instruction is dead. */
  ghost predicate Settled(body: Body) {
    WellFormed(body) &&
    (forall ins, outs :: LeastSolution(body, ins, outs) ==> PropagateFrom(body.instrs, body.blocks, ins, 0).2 == []) &&
    FoldScan(body.instrs, Flatten(body.blocks)).1 == [] &&
    DeadScan(body) == []
  }

  /** The common-subexpression-elimination pass.  Its body is not part of
      this model: it may redirect operands, and keeps the blocks and every
      instruction's opcode, arity, width and targets. */
  method CommonSubexpressionElimination(f: Function)
    requires WellFormed(f.Snapshot())
    modifies f
    ensures f.blocks == old(f.blocks) && SameShape(old(f.instrs), f.instrs)
    ensures WellFormed(f.Snapshot())
  {
    assert SameShape(f.instrs, f.instrs);
    var next :| SameShape(f.instrs, next);
    SameShapeFacts(f.instrs, next, next);
    f.instrs := next;
  }

  /** The body after constant propagation, which rewrites from IN of the
      least solution of the body's reaching-store equations. */
  ghost function Propagated(body: Body): Body
    requires WellFormed(body)
  {
    var p := PropagateFrom(body.instrs, body.blocks, LeastIns(body), 0);
    Body(p.0, p.1)
  }

  /** The body after one round: propagation, then folding, then DCE. */
  ghost function RoundResult(body: Body): Body
    requires WellFormed(body)
  {
    DceFix(Folded(Propagated(body)))
  }

  /** Whether any of the three passes of a round reports a change. */
  ghost predicate RoundChanges(body: Body)
    requires WellFormed(body)
  {
    var p := Propagated(body);
    PropagateFrom(body.instrs, body.blocks, LeastIns(body), 0).2 != [] ||
    FoldScan(p.instrs, Flatten(p.blocks)).1 != [] ||
    DeadScan(Folded(p)) != []
  }

  /** A round keeps the body well formed and never grows it; a round that
      reports a change erased an instruction, and one that reports none
      left the body as it was, and the body was settled. */
  lemma {:induction false} RoundFacts(body: Body)
    requires WellFormed(body)
    ensures WellFormed(RoundResult(body)) && |RoundResult(body).blocks| == |body.blocks|
    ensures LiveCount(RoundResult(body).blocks) <= LiveCount(body.blocks)
    ensures RoundChanges(body) ==> LiveCount(RoundResult(body).blocks) < LiveCount(body.blocks)
    ensures !RoundChanges(body) ==> RoundResult(body) == body && Settled(body)
  {
    PropagateFromFacts(body.instrs, body.blocks, LeastIns(body), 0);
    var p := Propagated(body);
    FoldedFacts(p);
    DceFixFacts(Folded(p));
    if !RoundChanges(body) {
      forall ins, outs | LeastSolution(body, ins, outs)
        ensures PropagateFrom(body.instrs, body.blocks, ins, 0).2 == []
      {
        var least :| LeastSolution(body, LeastIns(body), least);
        LeastSolutionUnique(body, ins, outs, LeastIns(body), least);
      }
    }
  }

  /** The fixpoint loop of the driver as a function: rounds until one
      reports no change.  It ends at a settled body. */
  ghost function Settle(body: Body): (r: Body)
    requires WellFormed(body)
    ensures WellFormed(r) && Settled(r) && |r.blocks| == |body.blocks|
    ensures LiveCount(r.blocks) <= LiveCount(body.blocks)
    decreases LiveCount(body.blocks)
  {
    RoundFacts(body);
    if RoundChanges(body) then Settle(RoundResult(body)) else body
  }

  /** A settled body is where the fixpoint stops at once: none of the passes
      reports a change on it. */
  lemma {:induction false} SettledStops(body: Body)
    requires Settled(body)
    ensures !RoundChanges(body) && Settle(body) == body
  {
    var least :| LeastSolution(body, LeastIns(body), least);
    PropagateFromFacts(body.instrs, body.blocks, LeastIns(body), 0);
    FoldedFacts(body);
  }

  /** Running the fixpoint again on its result changes nothing. */
  lemma {:induction false} SettleIdempotent(body: Body)
    requires WellFormed(body)
    ensures Settle(Settle(body)) == Settle(body)
  {
    SettledStops(Settle(body));
  }

  /** One round of the fixpoint: all three passes run, whatever the earlier
      ones report; `changed` is whether any of them reported a change. */
  method Round(f: Function) returns (changed: bool)
    requires WellFormed(f.Snapshot())
    modifies f
    ensures f.Snapshot() == RoundResult(old(f.Snapshot()))
    ensures changed <==> RoundChanges(old(f.Snapshot()))
  {
    ghost var before := f.Snapshot();
    changed := false;
    var c1;
    ghost var ins, outs;
    c1, ins, outs := ConstantPropagation(f);
    ghost var least :| LeastSolution(before, LeastIns(before), least);
    LeastSolutionUnique(before, ins, outs, LeastIns(before), least);
    changed := changed || c1;
    var c2 := ConstantFolding(f);
    changed := changed || c2;
    var c3 := DeadCodeElimination(f);
    changed := changed || c3;
  }

  /** Optimizes one function.  A function without blocks is left alone.
      Otherwise the rounds stop at the settled body `Settle` computes, which
      common-subexpression elimination may rewrite and dead-code elimination
      then cleans up. */
  method OptimizeFunction(f: Function) returns (ghost settled: Body, ghost cleaned: Body)
    requires WellFormed(f.Snapshot())
    modifies f
    ensures WellFormed(f.Snapshot()) && |f.blocks| == |old(f.blocks)|
    ensures LiveCount(f.blocks) <= LiveCount(old(f.blocks))
    ensures |old(f.blocks)| == 0 ==> f.instrs == old(f.instrs) && f.blocks == old(f.blocks)
    ensures |old(f.blocks)| > 0 ==>
              settled == Settle(old(f.Snapshot())) &&
              cleaned.blocks == settled.blocks && SameShape(settled.instrs, cleaned.instrs) &&
              f.Snapshot() == DceFix(cleaned)
  {
    settled := f.Snapshot();
    cleaned := settled;
    if |f.blocks| == 0 {
      return;
    }
    while true
      invariant WellFormed(f.Snapshot()) && |f.blocks| == |old(f.blocks)|
      invariant LiveCount(f.blocks) <= LiveCount(old(f.blocks))
      invariant Settle(f.Snapshot()) == Settle(old(f.Snapshot()))
      decreases LiveCount(f.blocks)
    {
      ghost var prev := f.Snapshot();
      var changed := Round(f);
      RoundFacts(prev);
      if !changed {
        settled := f.Snapshot();
        break;
      }
    }
    CommonSubexpressionElimination(f);
    cleaned := f.Snapshot();
    var _ := DeadCodeElimination(f);
  }

  /** What optimizing a function guarantees about it: a function without
      blocks is untouched; any other ends as DCE of a rewrite, by
      common-subexpression elimination, of the settled body. */
  ghost predicate Optimized(before: Body, after: Body) {
    WellFormed(before) && WellFormed(after) && |after.blocks| == |before.blocks| &&
    LiveCount(after.blocks) <= LiveCount(before.blocks) &&
    (|before.blocks| == 0 ==> after == before) &&
    (|before.blocks| > 0 ==>
       exists cleaned: Body :: cleaned.blocks == Settle(before).blocks &&
                         SameShape(Settle(before).instrs, cleaned.instrs) && after == DceFix(cleaned))
  }

  /** `cleaned`, the body common-subexpression elimination left, witnesses
      that `after` is optimized. */
  lemma {:induction false} OptimizedBy(before: Body, after: Body, cleaned: Body)
    requires WellFormed(before) && WellFormed(after) && |after.blocks| == |before.blocks|
    requires LiveCount(after.blocks) <= LiveCount(before.blocks)
    requires |before.blocks| == 0 ==> after == before
    requires |before.blocks| > 0 ==>
               cleaned.blocks == Settle(before).blocks &&
               SameShape(Settle(before).instrs, cleaned.instrs) && after == DceFix(cleaned)
    ensures Optimized(before, after)
  {
  }

  /** An optimized function has no dead instruction left. */
  lemma {:induction false} OptimizedHasNoDeadCode(before: Body, after: Body)
    requires Optimized(before, after)
    ensures DeadScan(after) == []
  {
    if |before.blocks| > 0 {
      var cleaned: Body :| cleaned.blocks == Settle(before).blocks &&
                     SameShape(Settle(before).instrs, cleaned.instrs) && after == DceFix(cleaned);
      DceFixNoDead(cleaned);
    } else {
      assert Flatten(after.blocks) == [];
    }
  }

  /** Optimizes every function of the module, each to completion before the next. */
  method RunOptimizations(fs: seq<Function>)
    requires forall i :: 0 <= i < |fs| ==> WellFormed(fs[i].Snapshot())
    requires forall i, j :: 0 <= i < j < |fs| ==> fs[i] != fs[j]
    modifies set i | 0 <= i < |fs| :: fs[i]
    ensures forall i :: 0 <= i < |fs| ==> Optimized(old(fs[i].Snapshot()), fs[i].Snapshot())
  {
    for i := 0 to |fs|
      invariant forall j :: 0 <= j < i ==> Optimized(old(fs[j].Snapshot()), fs[j].Snapshot())
      invariant forall j :: i <= j < |fs| ==> fs[j].Snapshot() == old(fs[j].Snapshot())
    {
      ghost var before := fs[i].Snapshot();
      label Pass:
      ghost var settled, cleaned := OptimizeFunction(fs[i]);
      assert forall j :: 0 <= j < |fs| && j != i ==> fs[j].Snapshot() == old@Pass(fs[j].Snapshot());
      OptimizedBy(before, fs[i].Snapshot(), cleaned);
    }
  }
}
