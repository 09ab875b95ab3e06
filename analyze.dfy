/** `analyze_rank_differences` (`scripts/.ipynb_checkpoints/analyze-checkpoint.py`, lines
    6-93): read the `ranks.txt` of every run folder, keep the runs whose rank difference is
    usable, count wins, ties and losses, remember the run with the largest improvement, and
    summarise the kept rank differences. */
module Analyze {
  import opened Wrappers
  import opened RanksFile
  import opened RanksParse

  /** One entry of `os.listdir(directory)`: its path, whether it is a folder holding a
      `ranks.txt` (line 20), and that file's text. */
  datatype Entry = Entry(path: string, isRunDir: bool, text: string)

  /** A run folder and the three fields read from its `ranks.txt`. */
  datatype Run = Run(path: string, fields: Fields)

  /** The state of the folder loop: `rank_diffs`, `wins`, `ties`, `losses`, `best_example`
      and `best_rank_change`. */
  datatype Tally = Tally(diffs: seq<int>, wins: nat, ties: nat, losses: nat,
                         best: Option<string>, bestChange: int)

  /** The integer part of the returned `stats` dictionary. */
  datatype Stats = Stats(count: nat, wins: nat, ties: nat, losses: nat,
                         min: int, max: int, range: int)

  datatype Summary =
    | NoValidRankDifferences  // the message returned when no run was kept
    | Summary(stats: Stats)

  /** `initial_rank < final_rank` raises a `TypeError` when a counted run lacks a rank. */
  datatype AnalyzeError = CompareWithNone(path: string)

  const Start := Tally([], 0, 0, 0, None, 100)

  /** The run folders of the directory, in listing order, with their parsed fields. */
  function Runs(entries: seq<Entry>): seq<Run> {
    if entries == [] then []
    else
      var e := entries[|entries| - 1];
      Runs(entries[..|entries| - 1])
      + if e.isRunDir then [Run(e.path, ParseLines(SplitLines(e.text)))] else []
  }

  /** Line 47: the rank difference parsed and, with `remove_bad_runs`, the initial rank is
      in 2..10. */
  predicate Kept(f: Fields, removeBadRuns: bool) {
    f.diff.Some? && (!removeBadRuns || (f.initial.Some? && 1 < f.initial.value <= 10))
  }

  /** Lines 48-49: with `remove_first_rankers`, a run that started first is not counted. */
  predicate Counted(f: Fields, removeFirstRankers: bool) {
    !removeFirstRankers || f.initial != Some(1)
  }

  /** The run is appended to `rank_diffs` and compared. */
  predicate Tallied(run: Run, removeFirstRankers: bool, removeBadRuns: bool) {
    Kept(run.fields, removeBadRuns) && Counted(run.fields, removeFirstRankers)
  }

  /** A tallied run whose comparison of ranks raises. */
  predicate Missing(run: Run, removeFirstRankers: bool, removeBadRuns: bool) {
    Tallied(run, removeFirstRankers, removeBadRuns)
    && (run.fields.initial.None? || run.fields.final.None?)
  }

  /** Lines 50-64: append the difference and bump the counters of the comparisons that hold. */
  function Count(t: Tally, initial: int, final: int, diff: int): Tally {
    t.(diffs := t.diffs + [diff],
       losses := t.losses + (if initial < final then 1 else 0),
       ties := t.ties + (if initial == final then 1 else 0),
       wins := t.wins + (if initial > final then 1 else 0))
  }

  /** One iteration of the folder loop, lines 47-68, on a run folder. */
  function Visit(t: Tally, run: Run, removeFirstRankers: bool, removeBadRuns: bool)
    : Result<Tally, AnalyzeError>
  {
    var f := run.fields;
    if !Kept(f, removeBadRuns) then Ok(t)
    else if Missing(run, removeFirstRankers, removeBadRuns) then Err(CompareWithNone(run.path))
    else
      var t1 := if Counted(f, removeFirstRankers)
                then Count(t, f.initial.value, f.final.value, f.diff.value) else t;
      Ok(if f.diff.value < t1.bestChange
         then t1.(bestChange := f.diff.value, best := Some(run.path)) else t1)
  }

  /** The folder loop over `runs`; the first `TypeError` ends it. */
  function Scan(runs: seq<Run>, removeFirstRankers: bool, removeBadRuns: bool)
    : Result<Tally, AnalyzeError>
  {
    if runs == [] then Ok(Start)
    else
      match Scan(runs[..|runs| - 1], removeFirstRankers, removeBadRuns)
      case Err(e) => Err(e)
      case Ok(t) => Visit(t, runs[|runs| - 1], removeFirstRankers, removeBadRuns)
  }

  /** `np.min` of a non-empty list of ints. */
  function SeqMin(s: seq<int>): (m: int)
    requires s != []
    ensures m in s && forall x :: x in s ==> m <= x
  {
    if |s| == 1 then s[0]
    else
      var m := SeqMin(s[..|s| - 1]);
      assert forall x :: x in s[..|s| - 1] ==> x in s;
      assert forall x :: x in s ==> x in s[..|s| - 1] || x == s[|s| - 1];
      if s[|s| - 1] < m then s[|s| - 1] else m
  }

  /** `np.max` of a non-empty list of ints. */
  function SeqMax(s: seq<int>): (m: int)
    requires s != []
    ensures m in s && forall x :: x in s ==> x <= m
  {
    if |s| == 1 then s[0]
    else
      var m := SeqMax(s[..|s| - 1]);
      assert forall x :: x in s[..|s| - 1] ==> x in s;
      assert forall x :: x in s ==> x in s[..|s| - 1] || x == s[|s| - 1];
      if s[|s| - 1] > m then s[|s| - 1] else m
  }

  /** Lines 72-87: the message when nothing was kept, otherwise the statistics. */
  function Summarise(t: Tally): Summary {
    if t.diffs == [] then NoValidRankDifferences
    else Summary(Stats(|t.diffs|, t.wins, t.ties, t.losses, SeqMin(t.diffs), SeqMax(t.diffs),
                       SeqMax(t.diffs) - SeqMin(t.diffs)))
  }

  /** `analyze_rank_differences(directory, remove_first_rankers, remove_bad_runs)`. */
  function AnalyzeResult(entries: seq<Entry>, removeFirstRankers: bool, removeBadRuns: bool)
    : Result<Summary, AnalyzeError>
  {
    match Scan(Runs(entries), removeFirstRankers, removeBadRuns)
    case Err(e) => Err(e)
    case Ok(t) => Ok(Summarise(t))
  }

  lemma {:induction false} RunsAppend(a: seq<Entry>, b: seq<Entry>)
    ensures Runs(a + b) == Runs(a) + Runs(b)
    decreases |b|
  {
    if b == [] {
      assert a + b == a;
    } else {
      var b' := b[..|b| - 1];
      assert (a + b)[..|a + b| - 1] == a + b';
      assert (a + b)[|a + b| - 1] == b[|b| - 1];
      RunsAppend(a, b');
    }
  }

  /** Once a comparison has raised, the rest of the listing is not looked at. */
  lemma {:induction false} ScanErrSticks(runs: seq<Run>, more: seq<Run>, rf: bool, rb: bool)
    requires Scan(runs, rf, rb).Err?
    ensures Scan(runs + more, rf, rb) == Scan(runs, rf, rb)
    decreases |more|
  {
    if more == [] {
      assert runs + more == runs;
    } else {
      var more' := more[..|more| - 1];
      assert (runs + more)[..|runs + more| - 1] == runs + more';
      ScanErrSticks(runs, more', rf, rb);
    }
  }

  /** A comparison that raises on the first `k` entries is what the whole call raises. */
  lemma ErrOnPrefix(entries: seq<Entry>, k: nat, rf: bool, rb: bool)
    requires k <= |entries| && Scan(Runs(entries[..k]), rf, rb).Err?
    ensures AnalyzeResult(entries, rf, rb) == Err(Scan(Runs(entries[..k]), rf, rb).error)
  {
    RunsAppend(entries[..k], entries[k..]);
    assert entries[..k] + entries[k..] == entries;
    ScanErrSticks(Runs(entries[..k]), Runs(entries[k..]), rf, rb);
  }

  /** Lines 47-68 on one run folder, updating the loop's variables. */
  method VisitFolder(t: Tally, run: Run, removeFirstRankers: bool, removeBadRuns: bool)
    returns (r: Result<Tally, AnalyzeError>)
    ensures r == Visit(t, run, removeFirstRankers, removeBadRuns)
  {
    var f := run.fields;
    var diffs, wins, ties, losses, bestExample, bestChange :=
      t.diffs, t.wins, t.ties, t.losses, t.best, t.bestChange;
    if f.diff.Some? && (!removeBadRuns || (f.initial.Some? && 1 < f.initial.value <= 10)) {
      if !removeFirstRankers || f.initial != Some(1) {
        if f.initial.None? || f.final.None? {
          return Err(CompareWithNone(run.path));
        }
        diffs := diffs + [f.diff.value];
        if f.initial.value < f.final.value {
          losses := losses + 1;
        }
        if f.initial.value == f.final.value {
          ties := ties + 1;
        }
        if f.initial.value > f.final.value {
          wins := wins + 1;
        }
      }
      if f.diff.value < bestChange {
        bestChange := f.diff.value;
        bestExample := Some(run.path);
      }
    }
    r := Ok(Tally(diffs, wins, ties, losses, bestExample, bestChange));
  }

  /** The runs of one more entry. */
  lemma RunsSnoc(entries: seq<Entry>, i: nat)
    requires i < |entries|
    ensures var e := entries[i];
            Runs(entries[..i + 1]) ==
            Runs(entries[..i]) + if e.isRunDir then [Run(e.path, ParseLines(SplitLines(e.text)))] else []
  {
    assert entries[..i + 1][..i] == entries[..i];
  }

  /** The folder loop over one more run. */
  lemma ScanSnoc(runs: seq<Run>, run: Run, rf: bool, rb: bool)
    requires Scan(runs, rf, rb).Ok?
    ensures Scan(runs + [run], rf, rb) == Visit(Scan(runs, rf, rb).value, run, rf, rb)
  {
    assert (runs + [run])[..|runs|] == runs;
  }

  /** Lines 6-93 as the loops they are; `best_example` is returned beside the result. */
  method AnalyzeRankDifferences(entries: seq<Entry>, removeFirstRankers: bool, removeBadRuns: bool)
    returns (r: Result<Summary, AnalyzeError>, bestExample: Option<string>)
    ensures r == AnalyzeResult(entries, removeFirstRankers, removeBadRuns)
    ensures r.Ok? ==> bestExample == Scan(Runs(entries), removeFirstRankers, removeBadRuns).value.best
  {
    var t := Start;
    for i := 0 to |entries|
      invariant Scan(Runs(entries[..i]), removeFirstRankers, removeBadRuns) == Ok(t)
    {
      var e := entries[i];
      RunsSnoc(entries, i);
      if e.isRunDir {
        var f := ParseRanksFile(SplitLines(e.text));
        var run := Run(e.path, f);
        ScanSnoc(Runs(entries[..i]), run, removeFirstRankers, removeBadRuns);
        var next := VisitFolder(t, run, removeFirstRankers, removeBadRuns);
        if next.Err? {
          ErrOnPrefix(entries, i + 1, removeFirstRankers, removeBadRuns);
          return Err(next.error), None;
        }
        t := next.value;
      } else {
        assert Runs(entries[..i + 1]) == Runs(entries[..i]);
      }
    }
    assert entries[..|entries|] == entries;
    bestExample := t.best;
    if t.diffs == [] {
      r := Ok(NoValidRankDifferences);
    } else {
      var lo := SeqMin(t.diffs);
      var hi := SeqMax(t.diffs);
      r := Ok(Summary(Stats(|t.diffs|, t.wins, t.ties, t.losses, lo, hi, hi - lo)));
    }
  }
}
