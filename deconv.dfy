/** The iteration driver of `deconv` (`scripts/.ipynb_checkpoints/algorithm-checkpoint.py`,
    lines 26-29, 41-62 and 122-179): build the graph from the counts, rank the secret string,
    iterate the update until the estimate stops moving or the iteration budget is spent, rank
    again and produce the rank record. Plotting and printing are left out; the points where
    they make the Python code fail are kept. */
module Deconv {
  import opened Wrappers
  import opened HypercubeGraph
  import opened Rank
  import opened Update
  import opened RanksFile

  datatype DeconvError =
    | IterationFailed(cause: StepError) // ZeroDivisionError inside lines 138-152
    | ProgressByZero                    // `(iteration + 1) % increment` with `increment == 0`
    | MaxOfEmpty                        // `max()` of an empty sequence: a graph without nodes
    | FinalRankUnbound                  // `final_rank` read at line 175 but never assigned
    | DirectoryUnbound                  // `directory` read at line 124 when `save_figs` is false
    | RankMissing                       // `final_rank - initial_rank` with both `None`

  /** How the loop stopped: the final estimate, the number of iterations run (`iteration + 1`)
      and whether the convergence test (rather than the last-iteration test) stopped it. */
  datatype Outcome = Outcome(u: Dist, iterations: nat, converged: bool)

  function Abs(x: real): real {
    if x < 0.0 then -x else x
  }

  function Max(a: real, b: real): real {
    if a >= b then a else b
  }

  /** `max(abs(u[k] - prev[k]) for k in u_graph.nodes)` over a non-empty node list. */
  function MaxAbsDiff(ts: seq<string>, u: Dist, prev: Dist): real
    requires ts != [] && Covers(ts, u) && Covers(ts, prev)
  {
    var here := Abs(u[ts[0]] - prev[ts[0]]);
    if |ts| == 1 then here else Max(here, MaxAbsDiff(ts[1..], u, prev))
  }

  /** The maximum bounds every change and is one of them, so it is below the tolerance
      exactly when every change is. */
  lemma {:induction false} MaxAbsDiffBounds(ts: seq<string>, u: Dist, prev: Dist, tol: real)
    requires ts != [] && Covers(ts, u) && Covers(ts, prev)
    ensures forall j :: 0 <= j < |ts| ==> Abs(u[ts[j]] - prev[ts[j]]) <= MaxAbsDiff(ts, u, prev)
    ensures exists j :: 0 <= j < |ts| && Abs(u[ts[j]] - prev[ts[j]]) == MaxAbsDiff(ts, u, prev)
    ensures MaxAbsDiff(ts, u, prev) < tol <==>
            forall j :: 0 <= j < |ts| ==> Abs(u[ts[j]] - prev[ts[j]]) < tol
  {
    if |ts| > 1 {
      var rest := ts[1..];
      MaxAbsDiffBounds(rest, u, prev, tol);
      forall j | 1 <= j < |ts| ensures ts[j] == rest[j - 1] { }
      var j :| 0 <= j < |rest| && Abs(u[rest[j]] - prev[rest[j]]) == MaxAbsDiff(rest, u, prev);
      assert rest[j] == ts[j + 1];
      if Abs(u[ts[0]] - prev[ts[0]]) < MaxAbsDiff(rest, u, prev) {
        assert Abs(u[ts[j + 1]] - prev[ts[j + 1]]) == MaxAbsDiff(ts, u, prev);
      } else {
        assert Abs(u[ts[0]] - prev[ts[0]]) == MaxAbsDiff(ts, u, prev);
      }
    } else {
      assert Abs(u[ts[0]] - prev[ts[0]]) == MaxAbsDiff(ts, u, prev);
    }
  }

  /** The update of lines 130-152 as a value the loop applies to its estimate. */
  type Updater = Dist --> Result<Dist, StepError>

  /** `next` maps every estimate over `keys` to an estimate over `keys` or to an error. */
  ghost predicate KeepsKeys(next: Updater, keys: set<string>) {
    forall v: Dist :: v.Keys == keys ==>
      next.requires(v) && (next(v).Ok? ==> next(v).value.Keys == keys)
  }

  /** The update `deconv` uses: `Step` with the observed counts `d` and radius `n`. */
  function StepOf(g: Graph, d: Dist, n: nat): (next: Updater)
    requires WellFormed(g) && d.Keys == NodeSet(g)
    ensures KeepsKeys(next, NodeSet(g))
  {
    (v: Dist) requires v.Keys == NodeSet(g) => Step(g, d, v, n)
  }

  /** The loop of lines 122-172 over the node list `nodes` from iteration `it`, with estimate
      `u` and update `next`. A loop that runs out of iterations without stopping leaves
      `final_rank` unassigned, which is what happens when `max_iterations <= 0`. */
  function Run(nodes: seq<string>, next: Updater, u: Dist, maxIterations: int, tol: real,
               saveFigs: bool, it: nat): (r: Result<Outcome, DeconvError>)
    requires KeepsKeys(next, SetOf(nodes)) && u.Keys == SetOf(nodes)
    ensures r.Ok? ==> r.value.u.Keys == SetOf(nodes)
    decreases maxIterations - it, 1
  {
    if it >= maxIterations then Err(FinalRankUnbound)
    else if it == 0 && !saveFigs then Err(DirectoryUnbound)
    else
      match next(u)
      case Err(e) => Err(IterationFailed(e))
      case Ok(u') => AfterStep(nodes, next, u, u', maxIterations, tol, saveFigs, it)
  }

  /** The update from `prev` to `u` moved no node by `tol` or more (line 162). */
  predicate Settled(nodes: seq<string>, prev: Dist, u: Dist, tol: real)
    requires prev.Keys == SetOf(nodes) && u.Keys == SetOf(nodes)
  {
    nodes != [] && MaxAbsDiff(nodes, u, prev) < tol
  }

  /** Lines 154-172 of iteration `it`, once the update turned `prev` into `u`. */
  function AfterStep(nodes: seq<string>, next: Updater, prev: Dist, u: Dist, maxIterations: int,
                     tol: real, saveFigs: bool, it: nat): (r: Result<Outcome, DeconvError>)
    requires KeepsKeys(next, SetOf(nodes)) && prev.Keys == SetOf(nodes) && u.Keys == SetOf(nodes)
    requires it < maxIterations
    ensures r.Ok? ==> r.value.u.Keys == SetOf(nodes)
    decreases maxIterations - it, 0
  {
    if maxIterations / 10 == 0 then Err(ProgressByZero)
    else if nodes == [] then Err(MaxOfEmpty)
    else if Settled(nodes, prev, u, tol) then Ok(Outcome(u, it + 1, true))
    else if it == maxIterations - 1 then Ok(Outcome(u, it + 1, false))
    else Run(nodes, next, u, maxIterations, tol, saveFigs, it + 1)
  }

  /** Lines 168-179 after the loop: the final rank is taken and the three numbers written. */
  function Finish(order: seq<string>, p: Dist, secret: string,
                  run: Result<Outcome, DeconvError>): (r: Result<RankRecord, DeconvError>)
    requires Covers(order, p)
    requires run.Ok? ==> Covers(order, run.value.u)
    ensures r.Ok? ==> r.value.diff == r.value.final - r.value.initial
  {
    match run
    case Err(e) => Err(e)
    case Ok(o) =>
      var initial := GetRank(order, p, secret);
      var final := GetRank(order, o.u, secret);
      if initial.None? || final.None? then Err(RankMissing)
      else Ok(RankRecord(initial.value, final.value, final.value as int - initial.value as int))
  }

  /** The whole of `deconv` up to the rank record it writes. `counts` is a Python dict, so its
      keys are distinct; `n` is `len(secret_string)`. */
  function DeconvResult(secret: string, maxIterations: int, counts: Counts, saveFigs: bool,
                        tol: real): Result<RankRecord, DeconvError>
    requires KeysDistinct(counts)
  {
    GraphOfNodes(counts);
    var g := GraphOf(counts);
    var p := ProbOf(counts);
    Finish(g.nodes, p, secret, Run(g.nodes, StepOf(g, p, |secret|), p, maxIterations, tol, saveFigs, 0))
  }

  /** One pass through the body of the loop at lines 122-172: either the loop stops with
      result `r`, or it goes on to the next iteration with estimate `u'`. */
  method LoopBody(g: Graph, d: Dist, u: Dist, n: nat, maxIterations: int, tol: real,
                  saveFigs: bool, it: nat) returns (stop: bool, r: Result<Outcome, DeconvError>, u': Dist)
    requires WellFormed(g) && d.Keys == NodeSet(g) && u.Keys == NodeSet(g) && it < maxIterations
    ensures stop ==> r == Run(g.nodes, StepOf(g, d, n), u, maxIterations, tol, saveFigs, it)
    ensures !stop ==> it + 1 < maxIterations && u'.Keys == NodeSet(g)
    ensures !stop ==> Run(g.nodes, StepOf(g, d, n), u', maxIterations, tol, saveFigs, it + 1) ==
                      Run(g.nodes, StepOf(g, d, n), u, maxIterations, tol, saveFigs, it)
  {
    u' := u;
    if it == 0 && !saveFigs {
      return true, Err(DirectoryUnbound), u';
    }
    var next := Iterate(g, d, u, n);
    assert next == StepOf(g, d, n)(u);
    if next.Err? {
      return true, Err(IterationFailed(next.error)), u';
    }
    u' := next.value;
    stop, r := AfterUpdate(g.nodes, StepOf(g, d, n), u, u', maxIterations, tol, saveFigs, it);
  }

  /** Lines 154-172 of one iteration: the progress report, the convergence test and the
      last-iteration test. */
  method AfterUpdate(nodes: seq<string>, next: Updater, prev: Dist, u: Dist, maxIterations: int,
                     tol: real, saveFigs: bool, it: nat) returns (stop: bool, r: Result<Outcome, DeconvError>)
    requires KeepsKeys(next, SetOf(nodes)) && prev.Keys == SetOf(nodes) && u.Keys == SetOf(nodes)
    requires it < maxIterations
    ensures stop ==> r == AfterStep(nodes, next, prev, u, maxIterations, tol, saveFigs, it)
    ensures !stop ==> it + 1 < maxIterations
    ensures !stop ==> AfterStep(nodes, next, prev, u, maxIterations, tol, saveFigs, it) ==
                      Run(nodes, next, u, maxIterations, tol, saveFigs, it + 1)
  {
    var increment := maxIterations / 10;
    if increment == 0 {
      return true, Err(ProgressByZero);
    }
    if nodes == [] {
      return true, Err(MaxOfEmpty);
    }
    if MaxAbsDiff(nodes, u, prev) < tol {
      return true, Ok(Outcome(u, it + 1, true));
    }
    if it == maxIterations - 1 {
      return true, Ok(Outcome(u, it + 1, false));
    }
    stop := false;
    r := Err(FinalRankUnbound);
  }

  /** The `for iteration in range(max_iterations)` loop, lines 122-172. */
  method RunLoop(g: Graph, d: Dist, n: nat, maxIterations: int, tol: real, saveFigs: bool)
    returns (r: Result<Outcome, DeconvError>)
    requires WellFormed(g) && d.Keys == NodeSet(g)
    ensures r == Run(g.nodes, StepOf(g, d, n), d, maxIterations, tol, saveFigs, 0)
  {
    var u := d;
    var iteration: nat := 0;
    while iteration < maxIterations
      invariant u.Keys == NodeSet(g)
      invariant Run(g.nodes, StepOf(g, d, n), u, maxIterations, tol, saveFigs, iteration) ==
                Run(g.nodes, StepOf(g, d, n), d, maxIterations, tol, saveFigs, 0)
      decreases maxIterations - iteration
    {
      var stop;
      stop, r, u := LoopBody(g, d, u, n, maxIterations, tol, saveFigs, iteration);
      if stop {
        return r;
      }
      iteration := iteration + 1;
    }
    return Err(FinalRankUnbound);
  }

  method Deconv(secret: string, maxIterations: int, counts: Counts, saveFigs: bool, tol: real)
    returns (r: Result<RankRecord, DeconvError>)
    requires KeysDistinct(counts)
    ensures r == DeconvResult(secret, maxIterations, counts, saveFigs, tol)
  {
    var g, p := BuildGraph(counts);
    GraphOfNodes(counts);
    var outcome := RunLoop(g, p, |secret|, maxIterations, tol, saveFigs);
    r := FinishRanks(g.nodes, p, secret, outcome);
  }

  lemma FinishOk(order: seq<string>, p: Dist, secret: string, o: Outcome,
                 initial: Option<nat>, final: Option<nat>)
    requires Covers(order, p) && Covers(order, o.u)
    requires initial == GetRank(order, p, secret) && final == GetRank(order, o.u, secret)
    ensures Finish(order, p, secret, Ok(o)) ==
            if initial.None? || final.None? then Err(RankMissing)
            else Ok(RankRecord(initial.value, final.value, final.value as int - initial.value as int))
  {
  }

  method FinishRanks(order: seq<string>, p: Dist, secret: string,
                     run: Result<Outcome, DeconvError>) returns (r: Result<RankRecord, DeconvError>)
    requires Covers(order, p)
    requires run.Ok? ==> Covers(order, run.value.u)
    ensures r == Finish(order, p, secret, run)
  {
    match run
    case Err(e) =>
      r := Err(e);
    case Ok(o) =>
      var initial := GetRank(order, p, secret);
      var final := GetRank(order, o.u, secret);
      FinishOk(order, p, secret, o, initial, final);
      if initial.None? || final.None? {
        r := Err(RankMissing);
      } else {
        r := Ok(RankRecord(initial.value, final.value, final.value as int - initial.value as int));
      }
  }
}
