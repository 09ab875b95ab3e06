/** What the loop of `deconv` (`scripts/.ipynb_checkpoints/algorithm-checkpoint.py`,
    lines 122-179) computes, stated against the plain sequence of iterates of the update. */
module DeconvProps {
  import opened Wrappers
  import opened HypercubeGraph
  import opened Rank
  import opened Update
  import opened RanksFile
  import opened Deconv

  /** The estimate after `k` applications of `next` to `u`, or the error of the first
      application that fails. */
  function Iterates(nodes: seq<string>, next: Updater, u: Dist, k: nat): (r: Result<Dist, StepError>)
    requires KeepsKeys(next, SetOf(nodes)) && u.Keys == SetOf(nodes)
    ensures r.Ok? ==> r.value.Keys == SetOf(nodes)
    ensures k == 0 ==> r == Ok(u)
  {
    if k == 0 then Ok(u)
    else
      match next(u)
      case Err(e) => Err(e)
      case Ok(v) => Iterates(nodes, next, v, k - 1)
  }

  /** The `k`-th update (`k >= 1`) succeeded and settled. */
  predicate SettledAt(nodes: seq<string>, next: Updater, u: Dist, k: nat, tol: real)
    requires KeepsKeys(next, SetOf(nodes)) && u.Keys == SetOf(nodes)
  {
    k >= 1 &&
    var before := Iterates(nodes, next, u, k - 1);
    var after := Iterates(nodes, next, u, k);
    before.Ok? && after.Ok? && Settled(nodes, before.value, after.value, tol)
  }

  /** After one successful update from `u` to `v`, the later iterates from `u` are the
      iterates from `v`. */
  lemma IteratesShift(nodes: seq<string>, next: Updater, u: Dist, v: Dist, k: nat, tol: real)
    requires KeepsKeys(next, SetOf(nodes)) && u.Keys == SetOf(nodes)
    requires next(u) == Ok(v)
    ensures v.Keys == SetOf(nodes)
    ensures Iterates(nodes, next, u, k + 1) == Iterates(nodes, next, v, k)
    ensures k >= 1 ==> (SettledAt(nodes, next, u, k + 1, tol) <==> SettledAt(nodes, next, v, k, tol))
  {
    if k >= 1 {
      assert Iterates(nodes, next, u, k) == Iterates(nodes, next, v, k - 1);
    }
  }

  /** An outcome of the loop started at iteration `it` with estimate `u`: it ran at least one
      and at most `maxIterations` iterations in all, its estimate is the iterate reached, it
      reports convergence exactly when the last update settled, it stops without converging
      only at the last iteration, and no earlier update settled. The loop only gets that far
      with `max_iterations >= 10`, a non-empty graph, and (from iteration 0) `save_figs`. */
  lemma {:induction false} RunTrace(nodes: seq<string>, next: Updater, u: Dist, maxIterations: int,
                                    tol: real, saveFigs: bool, it: nat)
    requires KeepsKeys(next, SetOf(nodes)) && u.Keys == SetOf(nodes)
    ensures var r := Run(nodes, next, u, maxIterations, tol, saveFigs, it);
            r.Ok? ==>
              && 10 <= maxIterations
              && nodes != []
              && (it == 0 ==> saveFigs)
              && it < r.value.iterations <= maxIterations
              && Iterates(nodes, next, u, r.value.iterations - it) == Ok(r.value.u)
              && (r.value.converged <==> SettledAt(nodes, next, u, r.value.iterations - it, tol))
              && (!r.value.converged ==> r.value.iterations == maxIterations)
              && (forall k :: 1 <= k < r.value.iterations - it ==> !SettledAt(nodes, next, u, k, tol))
    decreases maxIterations - it
  {
    var r := Run(nodes, next, u, maxIterations, tol, saveFigs, it);
    if r.Ok? {
      var v := next(u).value;
      assert r == AfterStep(nodes, next, u, v, maxIterations, tol, saveFigs, it);
      if !Settled(nodes, u, v, tol) && it != maxIterations - 1 {
        RunTrace(nodes, next, v, maxIterations, tol, saveFigs, it + 1);
        TraceStep(nodes, next, u, v, maxIterations, tol, saveFigs, it, r.value);
      } else {
        TraceStop(nodes, next, u, v, maxIterations, tol, saveFigs, it);
      }
    }
  }

  /** The conclusion of `RunTrace` about outcome `o`. */
  predicate Traced(nodes: seq<string>, next: Updater, u: Dist, maxIterations: int,
                   tol: real, saveFigs: bool, it: nat, o: Outcome)
    requires KeepsKeys(next, SetOf(nodes)) && u.Keys == SetOf(nodes)
  {
    && 10 <= maxIterations
    && nodes != []
    && (it == 0 ==> saveFigs)
    && it < o.iterations <= maxIterations
    && Iterates(nodes, next, u, o.iterations - it) == Ok(o.u)
    && (o.converged <==> SettledAt(nodes, next, u, o.iterations - it, tol))
    && (!o.converged ==> o.iterations == maxIterations)
    && (forall k :: 1 <= k < o.iterations - it ==> !SettledAt(nodes, next, u, k, tol))
  }

  /** The loop stops at iteration `it`: it settled, or it was the last iteration. */
  lemma TraceStop(nodes: seq<string>, next: Updater, u: Dist, v: Dist, maxIterations: int,
                  tol: real, saveFigs: bool, it: nat)
    requires KeepsKeys(next, SetOf(nodes)) && u.Keys == SetOf(nodes) && next(u) == Ok(v)
    requires 10 <= maxIterations && nodes != [] && (it == 0 ==> saveFigs) && it < maxIterations
    requires Settled(nodes, u, v, tol) || it == maxIterations - 1
    ensures Traced(nodes, next, u, maxIterations, tol, saveFigs, it,
                   Outcome(v, it + 1, Settled(nodes, u, v, tol)))
  {
    IteratesShift(nodes, next, u, v, 0, tol);
    assert SettledAt(nodes, next, u, 1, tol) <==> Settled(nodes, u, v, tol);
  }

  /** An outcome traced from iteration `it + 1` and the estimate after iteration `it` is
      traced from iteration `it` and the estimate before it, when iteration `it` neither
      settled nor was the last. */
  lemma TraceStep(nodes: seq<string>, next: Updater, u: Dist, v: Dist, maxIterations: int,
                  tol: real, saveFigs: bool, it: nat, o: Outcome)
    requires KeepsKeys(next, SetOf(nodes)) && u.Keys == SetOf(nodes) && next(u) == Ok(v)
    requires (it == 0 ==> saveFigs) && !Settled(nodes, u, v, tol)
    requires v.Keys == SetOf(nodes) && Traced(nodes, next, v, maxIterations, tol, saveFigs, it + 1, o)
    ensures Traced(nodes, next, u, maxIterations, tol, saveFigs, it, o)
  {
    IteratesShift(nodes, next, u, v, 0, tol);
    assert !SettledAt(nodes, next, u, 1, tol);
    var m := o.iterations - it;
    IteratesShift(nodes, next, u, v, m - 1, tol);
    forall k | 2 <= k < m ensures !SettledAt(nodes, next, u, k, tol) {
      IteratesShift(nodes, next, u, v, k - 1, tol);
    }
  }

  /** How a run from iteration `it` can fail: `final_rank` is unbound exactly when no
      iteration is left, `directory` is unbound exactly when the first iteration runs without
      `save_figs`, an update fails only with the error of one of the iterates the loop could
      reach, the progress report divides by zero only for `1 <= max_iterations <= 9`, and the
      maximum is of an empty sequence only when the graph has no nodes. */
  lemma {:induction false} RunErrors(nodes: seq<string>, next: Updater, u: Dist, maxIterations: int,
                                     tol: real, saveFigs: bool, it: nat)
    requires KeepsKeys(next, SetOf(nodes)) && u.Keys == SetOf(nodes)
    ensures var r := Run(nodes, next, u, maxIterations, tol, saveFigs, it);
            && (r == Err(FinalRankUnbound) <==> it >= maxIterations)
            && (r == Err(DirectoryUnbound) <==> it < maxIterations && it == 0 && !saveFigs)
            && (r.Err? && r.error.IterationFailed? ==>
                  exists k :: 1 <= k <= maxIterations - it && Iterates(nodes, next, u, k) == Err(r.error.cause))
            && (r == Err(ProgressByZero) ==> 1 <= maxIterations <= 9)
            && (r == Err(MaxOfEmpty) ==> nodes == [])
            && r != Err(RankMissing)
    decreases maxIterations - it
  {
    var r := Run(nodes, next, u, maxIterations, tol, saveFigs, it);
    if it < maxIterations && !(it == 0 && !saveFigs) {
      match next(u)
      case Err(e) =>
        assert Iterates(nodes, next, u, 1) == Err(e);
      case Ok(v) =>
        assert r == AfterStep(nodes, next, u, v, maxIterations, tol, saveFigs, it);
        if maxIterations / 10 != 0 && nodes != [] && !Settled(nodes, u, v, tol) && it != maxIterations - 1 {
          assert r == Run(nodes, next, v, maxIterations, tol, saveFigs, it + 1);
          RunErrors(nodes, next, v, maxIterations, tol, saveFigs, it + 1);
          if r.Err? && r.error.IterationFailed? {
            var k :| 1 <= k <= maxIterations - (it + 1) && Iterates(nodes, next, v, k) == Err(r.error.cause);
            IteratesShift(nodes, next, u, v, k, tol);
            assert 1 <= k + 1 <= maxIterations - it && Iterates(nodes, next, u, k + 1) == Err(r.error.cause);
          }
        }
    }
  }

  /** Conversely, with `max_iterations >= 10`, `save_figs` (from iteration 0), a non-empty
      graph and no failing update among the reachable iterates, the loop produces an outcome. */
  lemma {:induction false} RunSucceeds(nodes: seq<string>, next: Updater, u: Dist, maxIterations: int,
                                       tol: real, saveFigs: bool, it: nat)
    requires KeepsKeys(next, SetOf(nodes)) && u.Keys == SetOf(nodes)
    requires 10 <= maxIterations && it < maxIterations && (it == 0 ==> saveFigs) && nodes != []
    requires forall k :: 1 <= k <= maxIterations - it ==> Iterates(nodes, next, u, k).Ok?
    ensures Run(nodes, next, u, maxIterations, tol, saveFigs, it).Ok?
    decreases maxIterations - it
  {
    assert Iterates(nodes, next, u, 1).Ok?;
    var v := next(u).value;
    assert Run(nodes, next, u, maxIterations, tol, saveFigs, it) ==
           AfterStep(nodes, next, u, v, maxIterations, tol, saveFigs, it);
    if !Settled(nodes, u, v, tol) && it != maxIterations - 1 {
      forall k | 1 <= k <= maxIterations - (it + 1) ensures Iterates(nodes, next, v, k).Ok? {
        IteratesShift(nodes, next, u, v, k, tol);
        assert Iterates(nodes, next, u, k + 1).Ok?;
      }
      RunSucceeds(nodes, next, v, maxIterations, tol, saveFigs, it + 1);
    }
  }

  /** With strictly positive counts and a strictly positive estimate, no update the loop
      applies divides by zero and every iterate stays strictly positive. */
  lemma {:induction false} IteratesPositive(g: Graph, d: Dist, u: Dist, n: nat, k: nat)
    requires WellFormed(g) && d.Keys == NodeSet(g) && u.Keys == NodeSet(g)
    requires PositiveOn(g.nodes, d) && PositiveOn(g.nodes, u)
    ensures Iterates(g.nodes, StepOf(g, d, n), u, k).Ok?
    ensures PositiveOn(g.nodes, Iterates(g.nodes, StepOf(g, d, n), u, k).value)
    decreases k
  {
    if k > 0 {
      StepPositive(g, d, u, n);
      var v := Step(g, d, u, n).value;
      assert StepOf(g, d, n)(u) == Ok(v);
      IteratesPositive(g, d, v, n, k - 1);
    }
  }

  /** The counts of a dict with strictly positive values. */
  predicate PositiveCounts(counts: Counts) {
    forall i :: 0 <= i < |counts| ==> counts[i].1 > 0.0
  }

  /** With a non-empty dict of strictly positive counts, `save_figs` and at least ten
      iterations, `deconv` produces a rank record exactly when the secret string was
      observed. */
  lemma DeconvSucceeds(secret: string, maxIterations: int, counts: Counts, saveFigs: bool, tol: real)
    requires KeysDistinct(counts) && PositiveCounts(counts) && counts != []
    requires saveFigs && 10 <= maxIterations
    ensures DeconvResult(secret, maxIterations, counts, saveFigs, tol).Ok? <==> secret in KeysOf(counts)
  {
    GraphOfNodes(counts);
    var g := GraphOf(counts);
    var p := ProbOf(counts);
    var next := StepOf(g, p, |secret|);
    assert PositiveOn(g.nodes, p);
    forall k | 1 <= k <= maxIterations ensures Iterates(g.nodes, next, p, k).Ok? {
      IteratesPositive(g, p, p, |secret|, k);
    }
    RunSucceeds(g.nodes, next, p, maxIterations, tol, saveFigs, 0);
    var o := Run(g.nodes, next, p, maxIterations, tol, saveFigs, 0).value;
    RankIsPosition(g.nodes, p, secret);
    RankIsPosition(g.nodes, o.u, secret);
  }

  /** The ranks written after the loop: with a successful run and an observed secret string
      both ranks are its places (counted from 1) in the descending stable orders of the counts
      and of the final estimate, so they lie between 1 and the number of nodes, and `diff` is
      final minus initial; a missing rank means the secret string is not a node; a failed run
      passes its error on. */
  lemma FinishRanksMeaning(order: seq<string>, p: Dist, secret: string, run: Result<Outcome, DeconvError>)
    requires Covers(order, p) && Distinct(order)
    requires run.Ok? ==> Covers(order, run.value.u)
    ensures var r := Finish(order, p, secret, run);
            && (r.Ok? ==>
                  && run.Ok? && secret in order
                  && r.value.initial == Position(p, order, secret) + 1
                  && r.value.final == Position(run.value.u, order, secret) + 1
                  && 1 <= r.value.initial <= |order| && 1 <= r.value.final <= |order|
                  && r.value.diff == r.value.final - r.value.initial)
            && (run.Ok? ==> (r == Err(RankMissing) <==> secret !in order))
            && (run.Err? ==> r == Err(run.error))
  {
    RankIsPosition(order, p, secret);
    RankRange(order, p);
    if run.Ok? {
      RankIsPosition(order, run.value.u, secret);
      RankRange(order, run.value.u);
    }
  }

  /** A rank record from `deconv`: the secret string was observed, both ranks are between 1
      and the number of distinct observed strings, and the difference is final minus
      initial. A missing rank means the secret string was never observed. */
  lemma DeconvRanks(secret: string, maxIterations: int, counts: Counts, saveFigs: bool, tol: real)
    requires KeysDistinct(counts)
    ensures var r := DeconvResult(secret, maxIterations, counts, saveFigs, tol);
            && (r.Ok? ==>
                  && secret in KeysOf(counts)
                  && r.value.diff == r.value.final - r.value.initial
                  && 1 <= r.value.initial <= |counts| && 1 <= r.value.final <= |counts|)
            && (r == Err(RankMissing) ==> secret !in KeysOf(counts))
  {
    var g := GraphOf(counts);
    var p := ProbOf(counts);
    assert Covers(g.nodes, p) && Distinct(g.nodes) && WellFormed(g) && p.Keys == NodeSet(g) by {
      ProbOfDomain(counts);
      GraphOfWellFormed(counts);
    }
    var run := Run(g.nodes, StepOf(g, p, |secret|), p, maxIterations, tol, saveFigs, 0);
    assert run != Err(RankMissing) by {
      RunErrors(g.nodes, StepOf(g, p, |secret|), p, maxIterations, tol, saveFigs, 0);
    }
    FinishRanksMeaning(g.nodes, p, secret, run);
  }
}
