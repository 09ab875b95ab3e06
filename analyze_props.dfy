/** What `analyze_rank_differences` computes, stated against reference definitions of the
    runs it keeps and counts. */
module AnalyzeProps {
  import opened Wrappers
  import opened RanksFile
  import opened RanksParse
  import opened Analyze

  // ---------------------------------------------------------------------------------------
  // Reference definitions

  /** The rank differences of the tallied runs, in listing order. */
  function KeptDiffs(runs: seq<Run>, rf: bool, rb: bool): seq<int> {
    if runs == [] then []
    else
      var run := runs[|runs| - 1];
      KeptDiffs(runs[..|runs| - 1], rf, rb)
      + if Tallied(run, rf, rb) then [run.fields.diff.value] else []
  }

  /** A win is a run whose final rank is better (smaller) than its initial rank. */
  datatype Outcome = Win | Tie | Loss

  function OutcomeOf(initial: int, final: int): Outcome {
    if final < initial then Win else if final == initial then Tie else Loss
  }

  /** The number of tallied runs, with both ranks, that had outcome `o`. */
  function CountOutcome(runs: seq<Run>, rf: bool, rb: bool, o: Outcome): nat {
    if runs == [] then 0
    else
      var run := runs[|runs| - 1];
      var f := run.fields;
      CountOutcome(runs[..|runs| - 1], rf, rb, o)
      + if Tallied(run, rf, rb) && f.initial.Some? && f.final.Some?
           && OutcomeOf(f.initial.value, f.final.value) == o then 1 else 0
  }

  /** Run `i` raises, and no run before it does. */
  predicate FirstMissing(runs: seq<Run>, rf: bool, rb: bool, i: int) {
    0 <= i < |runs| && Missing(runs[i], rf, rb) && forall j :: 0 <= j < i ==> !Missing(runs[j], rf, rb)
  }

  /** Run `i` is kept, its difference `m` is below 100, and it is strictly smaller than every
      earlier kept difference. */
  predicate FirstMinimum(runs: seq<Run>, rb: bool, i: int, m: int) {
    && 0 <= i < |runs| && Kept(runs[i].fields, rb) && runs[i].fields.diff.value == m && m < 100
    && forall j :: 0 <= j < i && Kept(runs[j].fields, rb) ==> runs[j].fields.diff.value > m
  }

  // ---------------------------------------------------------------------------------------
  // The folder loop

  /** One folder appends its difference and bumps the counter of its outcome when it is
      tallied, and changes none of them otherwise. */
  lemma VisitCounts(t: Tally, run: Run, rf: bool, rb: bool)
    requires Visit(t, run, rf, rb).Ok?
    ensures var t' := Visit(t, run, rf, rb).value;
            var f := run.fields;
            var counted := Tallied(run, rf, rb) && f.initial.Some? && f.final.Some?;
            && t'.diffs == t.diffs + (if Tallied(run, rf, rb) then [f.diff.value] else [])
            && t'.wins == t.wins + (if counted && OutcomeOf(f.initial.value, f.final.value) == Win then 1 else 0)
            && t'.ties == t.ties + (if counted && OutcomeOf(f.initial.value, f.final.value) == Tie then 1 else 0)
            && t'.losses == t.losses + (if counted && OutcomeOf(f.initial.value, f.final.value) == Loss then 1 else 0)
            && (Tallied(run, rf, rb) ==> counted)
  {
  }

  /** `rank_diffs` holds the differences of the kept and counted runs, each counter the runs
      with its outcome, and every such run is exactly one of a win, a tie or a loss. */
  lemma {:induction false} ScanTally(runs: seq<Run>, rf: bool, rb: bool)
    ensures Scan(runs, rf, rb).Ok? ==>
            var t := Scan(runs, rf, rb).value;
            && t.diffs == KeptDiffs(runs, rf, rb)
            && t.wins == CountOutcome(runs, rf, rb, Win)
            && t.ties == CountOutcome(runs, rf, rb, Tie)
            && t.losses == CountOutcome(runs, rf, rb, Loss)
            && t.wins + t.ties + t.losses == |t.diffs|
  {
    if runs != [] {
      var init := runs[..|runs| - 1];
      ScanTally(init, rf, rb);
      if Scan(runs, rf, rb).Ok? {
        VisitCounts(Scan(init, rf, rb).value, runs[|runs| - 1], rf, rb);
      }
    }
  }

  /** The loop raises exactly when some kept and counted run lacks a rank, and then on the
      first of them. */
  lemma {:induction false} ScanErrors(runs: seq<Run>, rf: bool, rb: bool)
    ensures Scan(runs, rf, rb).Err? <==> exists i :: 0 <= i < |runs| && Missing(runs[i], rf, rb)
    ensures Scan(runs, rf, rb).Err? ==>
            exists i :: FirstMissing(runs, rf, rb, i)
                        && Scan(runs, rf, rb).error == CompareWithNone(runs[i].path)
  {
    if runs != [] {
      var init := runs[..|runs| - 1];
      var last := runs[|runs| - 1];
      ScanErrors(init, rf, rb);
      forall i | 0 <= i < |init| ensures init[i] == runs[i] { }
      if Scan(init, rf, rb).Err? {
        var i :| FirstMissing(init, rf, rb, i) && Scan(init, rf, rb).error == CompareWithNone(init[i].path);
        assert FirstMissing(runs, rf, rb, i);
      } else if Missing(last, rf, rb) {
        assert FirstMissing(runs, rf, rb, |runs| - 1);
      }
    }
  }

  /** `best_rank_change` never exceeds 100 and is at most every kept difference; when it is
      below 100, `best_example` is the first run that reached it. */
  lemma {:induction false} ScanBest(runs: seq<Run>, rf: bool, rb: bool)
    ensures Scan(runs, rf, rb).Ok? ==>
            var t := Scan(runs, rf, rb).value;
            && t.bestChange <= 100
            && (forall i :: 0 <= i < |runs| && Kept(runs[i].fields, rb) ==>
                  t.bestChange <= runs[i].fields.diff.value)
            && (t.best.None? ==> t.bestChange == 100)
            && (t.best.Some? ==>
                  exists i :: FirstMinimum(runs, rb, i, t.bestChange) && runs[i].path == t.best.value)
  {
    if runs != [] {
      var init := runs[..|runs| - 1];
      var last := runs[|runs| - 1];
      ScanBest(init, rf, rb);
      forall i | 0 <= i < |init| ensures init[i] == runs[i] { }
      if Scan(runs, rf, rb).Ok? {
        var t0 := Scan(init, rf, rb).value;
        var t := Scan(runs, rf, rb).value;
        if Kept(last.fields, rb) && last.fields.diff.value < t0.bestChange {
          assert FirstMinimum(runs, rb, |runs| - 1, t.bestChange);
        } else if t.best.Some? {
          var i :| FirstMinimum(init, rb, i, t0.bestChange) && init[i].path == t0.best.value;
          assert FirstMinimum(runs, rb, i, t.bestChange);
        }
      }
    }
  }

  /** With no kept difference below 100 there is no best example, and otherwise there is. */
  lemma BestExists(runs: seq<Run>, rf: bool, rb: bool)
    requires Scan(runs, rf, rb).Ok?
    ensures Scan(runs, rf, rb).value.best.Some? <==>
            exists i :: 0 <= i < |runs| && Kept(runs[i].fields, rb) && runs[i].fields.diff.value < 100
  {
    ScanBest(runs, rf, rb);
    var t := Scan(runs, rf, rb).value;
    if t.best.Some? {
      var i :| FirstMinimum(runs, rb, i, t.bestChange) && runs[i].path == t.best.value;
      assert Kept(runs[i].fields, rb) && runs[i].fields.diff.value < 100;
    }
  }

  // ---------------------------------------------------------------------------------------
  // The whole call

  /** The call raises exactly when a kept and counted run lacks a rank; otherwise it returns
      the message when no run was kept, and statistics of the kept differences when some
      were: their number, the outcome counts, and a minimum and maximum that occur among
      them and bound them. */
  lemma AnalyzeMeaning(entries: seq<Entry>, rf: bool, rb: bool)
    ensures var runs := Runs(entries);
            AnalyzeResult(entries, rf, rb).Err? <==> exists i :: 0 <= i < |runs| && Missing(runs[i], rf, rb)
    ensures var runs := Runs(entries);
            var diffs := KeptDiffs(runs, rf, rb);
            AnalyzeResult(entries, rf, rb).Ok? ==>
            match AnalyzeResult(entries, rf, rb).value
            case NoValidRankDifferences => diffs == []
            case Summary(s) =>
              && diffs != []
              && s.count == |diffs|
              && s.wins == CountOutcome(runs, rf, rb, Win)
              && s.ties == CountOutcome(runs, rf, rb, Tie)
              && s.losses == CountOutcome(runs, rf, rb, Loss)
              && s.wins + s.ties + s.losses == s.count
              && s.min in diffs && s.max in diffs
              && (forall x :: x in diffs ==> s.min <= x <= s.max)
              && s.range == s.max - s.min
  {
    ScanErrors(Runs(entries), rf, rb);
    ScanTally(Runs(entries), rf, rb);
    assert AnalyzeResult(entries, rf, rb).Err? <==> Scan(Runs(entries), rf, rb).Err?;
  }

  // ---------------------------------------------------------------------------------------
  // Analysing what `deconv` wrote

  function Diffs(recs: seq<RankRecord>): (ds: seq<int>)
    ensures |ds| == |recs| && forall i :: 0 <= i < |recs| ==> ds[i] == recs[i].diff
  {
    seq(|recs|, i requires 0 <= i < |recs| => recs[i].diff)
  }

  predicate Written(f: Fields, rec: RankRecord) {
    f == Fields(Some(rec.initial), Some(rec.final), Some(rec.diff), [])
  }

  /** Every entry is a run folder whose `ranks.txt` is the one `deconv` wrote for `recs[i]`. */
  predicate AllWritten(entries: seq<Entry>, recs: seq<RankRecord>) {
    |entries| == |recs|
    && forall i :: 0 <= i < |entries| ==>
         entries[i].isRunDir && entries[i].text == FormatRanks(recs[i])
  }

  /** When every entry is a run folder, the runs are the entries with their files parsed. */
  lemma {:induction false} RunsOfDirs(entries: seq<Entry>)
    requires forall i :: 0 <= i < |entries| ==> entries[i].isRunDir
    ensures |Runs(entries)| == |entries|
    ensures forall i :: 0 <= i < |entries| ==>
              Runs(entries)[i] == Run(entries[i].path, ParseLines(SplitLines(entries[i].text)))
  {
    if entries != [] {
      var n := |entries| - 1;
      var init := entries[..n];
      forall i | 0 <= i < |init| ensures init[i] == entries[i] { }
      RunsOfDirs(init);
      var runs := Runs(entries);
      assert runs == Runs(init) + [Run(entries[n].path, ParseLines(SplitLines(entries[n].text)))];
      forall i | 0 <= i < |entries|
        ensures runs[i] == Run(entries[i].path, ParseLines(SplitLines(entries[i].text)))
      {
        if i < n { assert runs[i] == Runs(init)[i]; }
      }
    }
  }

  lemma {:induction false} KeptWritten(runs: seq<Run>, recs: seq<RankRecord>)
    requires |runs| == |recs| && forall i :: 0 <= i < |runs| ==> Written(runs[i].fields, recs[i])
    ensures KeptDiffs(runs, false, false) == Diffs(recs)
    ensures forall i :: 0 <= i < |runs| ==> !Missing(runs[i], false, false)
  {
    if runs != [] {
      var n := |runs|;
      KeptWritten(runs[..n - 1], recs[..n - 1]);
      assert Diffs(recs) == Diffs(recs[..n - 1]) + [recs[n - 1].diff];
    }
  }

  /** Without filters, analysing folders that hold what `deconv` wrote never raises and
      keeps every run's rank difference, in listing order. */
  lemma AnalyzeWritten(entries: seq<Entry>, recs: seq<RankRecord>)
    requires AllWritten(entries, recs)
    ensures AnalyzeResult(entries, false, false).Ok?
    ensures KeptDiffs(Runs(entries), false, false) == Diffs(recs)
  {
    RunsOfDirs(entries);
    forall i | 0 <= i < |entries| ensures Written(Runs(entries)[i].fields, recs[i]) {
      RanksRoundTrip(recs[i]);
    }
    KeptWritten(Runs(entries), recs);
    ScanErrors(Runs(entries), false, false);
  }
}
