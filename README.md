# Quantum measurement deconvolution, modelled in Dafny

This project models the core of a repository that post-processes bit-string measurement counts from
Bernstein–Vazirani style runs on a quantum computer. The counts are a dictionary from measured bit strings to counts.

`deconv` does the following:
- It builds a graph on the observed strings, with an edge between two strings at Hamming distance 1.
- It runs an iterative multiplicative correction of a probability estimate.
- It reports how the rank of the secret string changed.
- It writes that rank record to `ranks.txt`.

`analyze_rank_differences` reads these records back from a directory of runs. It filters them, counts wins, ties and losses, and summarises the rank differences.

The model is split into these modules:

- `Hamming` (`hamming.dfy`): `hamming_dist`, which counts the differing positions of the zipped strings.
- `HypercubeGraph` (`graph.dfy`): graph construction as the nested `add_node`/`add_edge` loops. Each loop is proved equal to a reference graph. It also holds `get_n_away_neighbors`, a cutoff breadth-first neighbourhood proved equal to "reachable by a walk of at most k edges".
- `BinaryFormat` (`binary.dfy`): `format(index, f"0{n}b")`, which names the keys of the `c` template.
- `Rank` (`rank.dfy`): `get_rank`.
  - It is modelled as the stable descending sort that Python's `sorted(..., reverse=True)` performs, followed by 1-based numbering.
  - It is proved equal to a closed form: one plus the number of nodes with a larger `prob`, plus the number of earlier-inserted nodes with an equal one.
- `Update` (`update.dfy`): one iteration.
  - The consistency term `c`, the correction factors, the in-place update of `u` and the normalisation are each a method with a loop, proved against a function.
  - `Step` composes the four.
- `Deconv` and `DeconvProps` (`deconv.dfy`, `deconv_props.dfy`): the iteration loop with its two exits, the final rank, and the rank record. They also hold every way the Python code raises on the way.
- `RanksFile` (`ranksfile.dfy`): the writer of `ranks.txt`.
- `RanksParse` (`ranksparse.dfy`): the line loop that reads `ranks.txt` back.
  - It models `in` on strings, `split(":")[-1]`, `strip()`, `int()` and `readlines()`.
  - `strip()` removes the characters of `IsSpace`, the code points for which Python's `str.isspace` holds.
  - It carries the round trip with the writer.
- `Analyze` and `AnalyzeProps` (`analyze.dfy`, `analyze_props.dfy`): the folder loop of `analyze_rank_differences`. Its statements are proved against reference definitions of the kept runs.
- `Wrappers` (`wrappers.dfy`): `Option` (Python's `None`) and `Result` (a raised exception).

Probabilities are Dafny `real`, which is exact. Python exceptions become `Err` values:
- the `ZeroDivisionError`s of the update and of the progress report;
- `max()` of an empty sequence;
- the unbound `directory` and `final_rank`;
- `None - None` when the secret string was never observed;
- the `TypeError` raised when `analyze_rank_differences` compares a missing rank.

Behaviour of the code worth knowing:
- **Ties.** `get_rank` gives tied strings distinct consecutive ranks in insertion order, as the stable sort does (`Rank.RankTieInsertionOrder`). They do not share a rank.
- **Raw counts until the first normalisation.** `d` and the initial `u` are raw counts, because the division by `shots` is commented out. The estimate sums to 1 only after an iteration (`Update.StepSumsToOne`).
- **The loop needs at least ten iterations.** With 1 to 9 iterations, `max_iterations // 10` is 0, so an iteration that reaches the progress check divides by zero. With 0 or fewer, the loop never runs and `final_rank` is never bound (`DeconvProps.RunErrors`).
- **`save_figs=False` raises.** With `save_figs=False`, the first iteration reads the unbound `directory`.

## Model

| member | source | states |
|---|---|---|
| Hamming.HammingDist | scripts/qctools.py:21-22 | the distance never exceeds the length of either string (`zip` stops at the shorter) |
| Hamming.DistSelf | scripts/qctools.py:22 | every string is at distance 0 from itself |
| Hamming.DistSymmetric | scripts/qctools.py:22 | the distance is symmetric |
| Hamming.DistZeroIffAgree | scripts/qctools.py:22 | distance 0 exactly when the strings agree on every position `zip` visits |
| Hamming.DistZeroIffEqual | scripts/qctools.py:22 | for strings of equal length, distance 0 exactly when they are equal |
| Hamming.Triangle | scripts/qctools.py:22 | the triangle inequality for strings of one length |
| Hamming.DistUpdate | scripts/qctools.py:22 | replacing one character changes the distance to the original by 1 exactly when the character differs |
| Hamming.FlipOne | scripts/qctools.py:22 | flipping one bit of a bit string gives a bit string at distance exactly 1 |
| HypercubeGraph.ProbOf | scripts/.ipynb_checkpoints/algorithm-checkpoint.py:41-44 | the `prob` attributes after the node loop, a later duplicate key overwriting an earlier one; `ProbOfDomain` states its keys and values |
| HypercubeGraph.GraphOf | scripts/.ipynb_checkpoints/algorithm-checkpoint.py:41-53 | the reference graph: the keys in order, joined exactly at Hamming distance 1; `GraphOfNodes` and `GraphOfEdges` state both halves |
| HypercubeGraph.ProbOfDomain | scripts/.ipynb_checkpoints/algorithm-checkpoint.py:41-44 | the `prob` attributes are keyed by exactly the dict keys, each with its own count |
| HypercubeGraph.GraphOfNodes | scripts/.ipynb_checkpoints/algorithm-checkpoint.py:41-44 | the nodes are the keys of `counts` in insertion order, without duplicates, each with `prob` equal to its count |
| HypercubeGraph.GraphOfEdges | scripts/.ipynb_checkpoints/algorithm-checkpoint.py:47-53 | two nodes are joined exactly when their Hamming distance is 1; the relation is symmetric and has no self-loops |
| HypercubeGraph.AddNodes | scripts/.ipynb_checkpoints/algorithm-checkpoint.py:41-44 | the node loop yields the keys in order, no edges, and the counts as `prob` |
| HypercubeGraph.AdjacencyStart | scripts/.ipynb_checkpoints/algorithm-checkpoint.py:41-47 | a graph without edges satisfies the edge loop's invariant before the first source |
| HypercubeGraph.AddEdgesFrom | scripts/.ipynb_checkpoints/algorithm-checkpoint.py:49-53 | the inner edge loop for one source adds exactly the edges at distance 1 from it, keeping the invariant |
| HypercubeGraph.AdjacencyDone | scripts/.ipynb_checkpoints/algorithm-checkpoint.py:47-53 | once every source is handled, the adjacency is exactly distance-1 adjacency |
| HypercubeGraph.BuildGraph | scripts/.ipynb_checkpoints/algorithm-checkpoint.py:41-53 | the nested loops build exactly the reference graph and `prob` map |
| HypercubeGraph.Reach | scripts/.ipynb_checkpoints/algorithm-checkpoint.py:16 | the nodes within the cutoff, level by level; `ReachIffWalk` proves it is the set of nodes within k hops |
| HypercubeGraph.ReachMonotone | scripts/.ipynb_checkpoints/algorithm-checkpoint.py:16 | the neighbourhood contains its source and grows with the cutoff |
| HypercubeGraph.ReachStable | scripts/.ipynb_checkpoints/algorithm-checkpoint.py:16 | once a level adds no node, every larger cutoff gives the same neighbourhood |
| HypercubeGraph.ReachInGraph | scripts/.ipynb_checkpoints/algorithm-checkpoint.py:16-17 | the neighbourhood of a graph node holds only graph nodes |
| HypercubeGraph.ReachHasWalk | scripts/.ipynb_checkpoints/algorithm-checkpoint.py:16 | every node of the neighbourhood with cutoff k ends a walk of at most k edges from the source |
| HypercubeGraph.WalkInReach | scripts/.ipynb_checkpoints/algorithm-checkpoint.py:16 | the end of every walk lies in the neighbourhood whose cutoff is the walk's length |
| HypercubeGraph.ReachIffWalk | scripts/.ipynb_checkpoints/algorithm-checkpoint.py:16-17 | the neighbourhood with cutoff k is exactly the set of nodes within k hops |
| HypercubeGraph.GraphOfEdgesAtDistanceOne | scripts/.ipynb_checkpoints/algorithm-checkpoint.py:47-53 | every edge of the built graph joins strings at Hamming distance 1 |
| HypercubeGraph.EdgeStepDistance | scripts/.ipynb_checkpoints/algorithm-checkpoint.py:47-53 | one edge moves the Hamming distance from a fixed string by at most 1 |
| HypercubeGraph.ReachWithinDistance | scripts/.ipynb_checkpoints/algorithm-checkpoint.py:16-17 | over strings of one length, a node within k hops is at Hamming distance at most k from the source |
| HypercubeGraph.Expand | scripts/.ipynb_checkpoints/algorithm-checkpoint.py:16 | one level of the cutoff search yields exactly the unseen neighbours of the frontier |
| HypercubeGraph.NAwayNeighbors | scripts/.ipynb_checkpoints/algorithm-checkpoint.py:12-18 | raises the missing-node error exactly when the node is not in the graph, otherwise returns the neighbourhood with the cutoff (a negative cutoff acting as 0) |
| BinaryFormat.ToBinary | scripts/.ipynb_checkpoints/algorithm-checkpoint.py:130 | `format(index, f"0{n}b")`: the binary digits left-padded with zeros to n; `ToBinaryIsFixed` and `BinaryRoundTrip` give its meaning |
| BinaryFormat.Digits | scripts/.ipynb_checkpoints/algorithm-checkpoint.py:130 | `format(i, "b")` is a non-empty bit string |
| BinaryFormat.Fixed | scripts/.ipynb_checkpoints/algorithm-checkpoint.py:130 | the n-bit numeral is a bit string of length n |
| BinaryFormat.FixedZero | scripts/.ipynb_checkpoints/algorithm-checkpoint.py:130 | the n-bit numeral of 0 is n zeros |
| BinaryFormat.ToBinaryIsFixed | scripts/.ipynb_checkpoints/algorithm-checkpoint.py:130 | the zero-padded numeral of a number below 2^n is its n-bit numeral |
| BinaryFormat.FromFixed | scripts/.ipynb_checkpoints/algorithm-checkpoint.py:130 | reading the n-bit numeral of i back gives i |
| BinaryFormat.FixedFrom | scripts/.ipynb_checkpoints/algorithm-checkpoint.py:130 | every bit string is the numeral of its value, which is below 2 to its length |
| BinaryFormat.BinaryRoundTrip | scripts/.ipynb_checkpoints/algorithm-checkpoint.py:130 | numerals and values of n-bit strings are inverse to each other |
| BinaryFormat.KeysBelowMembers | scripts/.ipynb_checkpoints/algorithm-checkpoint.py:130 | the template keys for `range(m)` are exactly the numerals of 0..m-1 |
| BinaryFormat.KeysBelowSize | scripts/.ipynb_checkpoints/algorithm-checkpoint.py:130 | there are exactly m such keys when m is at most 2^n |
| BinaryFormat.TemplateKeys | scripts/.ipynb_checkpoints/algorithm-checkpoint.py:130 | the keys of the `c` template for `range(2**n)`; `TemplateKeysExact` counts and names them |
| BinaryFormat.TemplateKeysExact | scripts/.ipynb_checkpoints/algorithm-checkpoint.py:130 | the `c` template has exactly 2^n keys, and for n at least 1 they are exactly the n-bit strings |
| Rank.GetRank | scripts/.ipynb_checkpoints/algorithm-checkpoint.py:34-38 | `get_rank` is `None` exactly when the secret is not a node, and otherwise a rank in 1..number of nodes |
| Rank.InsertDesc | scripts/.ipynb_checkpoints/algorithm-checkpoint.py:36 | one stable insertion adds exactly the new element |
| Rank.SortDesc | scripts/.ipynb_checkpoints/algorithm-checkpoint.py:36 | the sort is a permutation of the nodes |
| Rank.SortDescending | scripts/.ipynb_checkpoints/algorithm-checkpoint.py:36 | the sorted order is descending in `prob` |
| Rank.SortCount | scripts/.ipynb_checkpoints/algorithm-checkpoint.py:36 | the sort keeps the number of nodes at or above every threshold |
| Rank.SortDistinct | scripts/.ipynb_checkpoints/algorithm-checkpoint.py:36 | the sort of distinct nodes has no duplicates |
| Rank.IndexInsertNew | scripts/.ipynb_checkpoints/algorithm-checkpoint.py:36 | a new element lands after every element of at least its `prob` |
| Rank.IndexInsertOld | scripts/.ipynb_checkpoints/algorithm-checkpoint.py:36 | an old element moves back by one exactly when the new one has a strictly greater `prob` |
| Rank.SortPositionLast | scripts/.ipynb_checkpoints/algorithm-checkpoint.py:36-37 | the last-inserted node's sorted index is its closed-form position |
| Rank.PositionSnoc | scripts/.ipynb_checkpoints/algorithm-checkpoint.py:36-37 | appending a node moves an earlier node's closed-form position back exactly when the new one has a larger `prob` |
| Rank.SortIndexSnoc | scripts/.ipynb_checkpoints/algorithm-checkpoint.py:36 | sorting one more node moves an earlier node back exactly when the new one has a larger `prob` |
| Rank.SortPositionEarlier | scripts/.ipynb_checkpoints/algorithm-checkpoint.py:36-37 | an earlier node's sorted index stays its closed-form position when a node is appended |
| Rank.SortPosition | scripts/.ipynb_checkpoints/algorithm-checkpoint.py:36-37 | the index of every node in the stable descending sort is its closed-form position |
| Rank.RankIsPosition | scripts/.ipynb_checkpoints/algorithm-checkpoint.py:34-38 | `get_rank` is `None` exactly when the secret is not a node, otherwise one plus its position |
| Rank.RankOfMember | scripts/.ipynb_checkpoints/algorithm-checkpoint.py:34-38 | the rank of a node is one plus its index in the sorted order |
| Rank.RankRange | scripts/.ipynb_checkpoints/algorithm-checkpoint.py:35-38 | every node has a rank, and it lies in 1..number of nodes |
| Rank.RankInjective | scripts/.ipynb_checkpoints/algorithm-checkpoint.py:35-38 | two different nodes never share a rank |
| Rank.RankOnto | scripts/.ipynb_checkpoints/algorithm-checkpoint.py:35-38 | the node at sorted index r-1 has rank r, for every r in 1..number of nodes |
| Rank.RankImage | scripts/.ipynb_checkpoints/algorithm-checkpoint.py:35-38 | the set of ranks of the nodes is exactly 1..number of nodes |
| Rank.RankBijection | scripts/.ipynb_checkpoints/algorithm-checkpoint.py:35-38 | the ranks of the nodes are a bijection onto 1..number of nodes: in range, injective, and with image exactly that range |
| Rank.RankHigherProb | scripts/.ipynb_checkpoints/algorithm-checkpoint.py:36-37 | a strictly greater `prob` gives a strictly smaller rank |
| Rank.RankTieInsertionOrder | scripts/.ipynb_checkpoints/algorithm-checkpoint.py:36-37 | among equal `prob`s the earlier-inserted node gets the smaller rank |
| Update.Weight | scripts/.ipynb_checkpoints/algorithm-checkpoint.py:134 | the kernel `1/(hamming_dist+1)`; `WeightBounds` states its range |
| Update.WeightBounds | scripts/.ipynb_checkpoints/algorithm-checkpoint.py:134 | the kernel `1/(hamming_dist+1)` lies in (0, 1], is 1 between a string and itself, and for strings of one length is 1 exactly when they are equal |
| Update.TemplateMap | scripts/.ipynb_checkpoints/algorithm-checkpoint.py:130 | the `c` template: 0 at every n-bit key; `ConsistencyShape` states what survives of it in `c` |
| Update.ConsistencySum | scripts/.ipynb_checkpoints/algorithm-checkpoint.py:134 | the sum over the neighbourhood of the kernel times the estimate; `ConsistencySumNonNegative` and `ConsistencySumAtLeast` bound it |
| Update.ConsistencyMap | scripts/.ipynb_checkpoints/algorithm-checkpoint.py:130-134 | `c` is keyed by the template keys together with the observed strings |
| Update.ComputeConsistency | scripts/.ipynb_checkpoints/algorithm-checkpoint.py:130-134 | the loop over the observed strings computes exactly `c` |
| Update.ConsistencySumNonNegative | scripts/.ipynb_checkpoints/algorithm-checkpoint.py:134 | with a non-negative estimate, every neighbourhood sum is non-negative |
| Update.ConsistencySumAtLeast | scripts/.ipynb_checkpoints/algorithm-checkpoint.py:134 | with a non-negative estimate, the sum for an observed string whose neighbourhood holds it is at least its own mass |
| Update.ConsistencyShape | scripts/.ipynb_checkpoints/algorithm-checkpoint.py:130-134 | `c` is 0 on template strings that were not observed; with a non-negative estimate, `c` is non-negative and at each observed string at least that string's own mass |
| Update.CorrectionSum | scripts/.ipynb_checkpoints/algorithm-checkpoint.py:141 | the sum raises exactly when some neighbour has `c` equal to 0 |
| Update.CorrectionMap | scripts/.ipynb_checkpoints/algorithm-checkpoint.py:138-141 | `correction` is keyed like `c` |
| Update.ComputeCorrection | scripts/.ipynb_checkpoints/algorithm-checkpoint.py:138-141 | the loop over the observed strings computes exactly `correction`, or the division by zero |
| Update.CorrectionSumAtLeast | scripts/.ipynb_checkpoints/algorithm-checkpoint.py:141 | with non-negative `d` and `c` a correction is non-negative and at least the string's own ratio |
| Update.CorrectionSign | scripts/.ipynb_checkpoints/algorithm-checkpoint.py:138-141 | non-negative `d` and `c` give non-negative corrections; positive ones give positive corrections on the nodes |
| Update.Updated | scripts/.ipynb_checkpoints/algorithm-checkpoint.py:144-145 | the update keeps the node set |
| Update.ApplyCorrection | scripts/.ipynb_checkpoints/algorithm-checkpoint.py:144-145 | the in-place loop multiplies each node's mass by its correction |
| Update.UpdatedSign | scripts/.ipynb_checkpoints/algorithm-checkpoint.py:144-145 | the update keeps non-negativity and positivity |
| Update.Total | scripts/.ipynb_checkpoints/algorithm-checkpoint.py:147-149 | the total mass over the nodes; `TotalSign` and `TotalScaled` state its sign and scaling |
| Update.TotalMass | scripts/.ipynb_checkpoints/algorithm-checkpoint.py:147-149 | the accumulator loop computes the total mass |
| Update.TotalSign | scripts/.ipynb_checkpoints/algorithm-checkpoint.py:147-149 | the total of a non-negative estimate is non-negative, and of a positive one over some node positive |
| Update.TotalScaled | scripts/.ipynb_checkpoints/algorithm-checkpoint.py:151-152 | dividing every mass by a constant divides the total by it |
| Update.Normalized | scripts/.ipynb_checkpoints/algorithm-checkpoint.py:147-152 | a successful normalisation keeps the keys of the estimate |
| Update.Normalize | scripts/.ipynb_checkpoints/algorithm-checkpoint.py:147-152 | the two in-place loops compute exactly the normalised estimate |
| Update.NormalizedSumsToOne | scripts/.ipynb_checkpoints/algorithm-checkpoint.py:147-152 | after normalisation the masses sum to 1 |
| Update.NormalizedSign | scripts/.ipynb_checkpoints/algorithm-checkpoint.py:147-152 | normalisation keeps non-negativity; a positive estimate normalises without error and stays positive |
| Update.Step | scripts/.ipynb_checkpoints/algorithm-checkpoint.py:130-152 | a successful iteration yields an estimate over exactly the nodes |
| Update.Iterate | scripts/.ipynb_checkpoints/algorithm-checkpoint.py:130-152 | the four loops compute exactly one iteration, or its division by zero |
| Update.StepSumsToOne | scripts/.ipynb_checkpoints/algorithm-checkpoint.py:130-152 | after a successful iteration over a non-empty graph the estimate sums to 1 |
| Update.StepNonNegative | scripts/.ipynb_checkpoints/algorithm-checkpoint.py:130-152 | non-negative counts and estimate give a non-negative next estimate |
| Update.StepPositive | scripts/.ipynb_checkpoints/algorithm-checkpoint.py:130-152 | positive counts and estimate never divide by zero and give a positive next estimate |
| Deconv.MaxAbsDiff | scripts/.ipynb_checkpoints/algorithm-checkpoint.py:160 | the largest change of any node's mass over one iteration; `MaxAbsDiffBounds` states it is a bound that is attained |
| Deconv.Settled | scripts/.ipynb_checkpoints/algorithm-checkpoint.py:160 | the convergence test: some node exists and every change is below the tolerance, by `MaxAbsDiffBounds` |
| Deconv.MaxAbsDiffBounds | scripts/.ipynb_checkpoints/algorithm-checkpoint.py:160 | the maximum change bounds every node's change and is attained, so it is below the tolerance exactly when every change is |
| Deconv.StepOf | scripts/.ipynb_checkpoints/algorithm-checkpoint.py:130-152 | the update the loop applies maps estimates over the nodes to estimates over the nodes |
| Deconv.Run | scripts/.ipynb_checkpoints/algorithm-checkpoint.py:122-172 | the loop's final estimate is over the nodes |
| Deconv.AfterStep | scripts/.ipynb_checkpoints/algorithm-checkpoint.py:154-172 | the rest of an iteration keeps the estimate over the nodes |
| Deconv.Finish | scripts/.ipynb_checkpoints/algorithm-checkpoint.py:175 | the written difference is final rank minus initial rank |
| Deconv.AfterUpdate | scripts/.ipynb_checkpoints/algorithm-checkpoint.py:154-172 | the progress, convergence and last-iteration checks either stop the loop with its result or continue at the next iteration |
| Deconv.LoopBody | scripts/.ipynb_checkpoints/algorithm-checkpoint.py:122-172 | one pass of the loop body either stops with the loop's result or hands the next estimate to the next pass |
| Deconv.RunLoop | scripts/.ipynb_checkpoints/algorithm-checkpoint.py:122-172 | the `for`/`break` loop computes exactly the loop's result |
| Deconv.FinishRanks | scripts/.ipynb_checkpoints/algorithm-checkpoint.py:163-179 | the ranks after the loop are exactly the reference record |
| Deconv.DeconvResult | scripts/.ipynb_checkpoints/algorithm-checkpoint.py:26-179 | the reference result of the whole of `deconv`; `DeconvSucceeds`, `DeconvRanks` and `FinishRanksMeaning` state its meaning |
| Deconv.Deconv | scripts/.ipynb_checkpoints/algorithm-checkpoint.py:26-179 | the whole of `deconv` computes exactly the reference rank record or error |
| DeconvProps.Iterates | scripts/.ipynb_checkpoints/algorithm-checkpoint.py:130-152 | k iterations keep the node set; zero iterations give the estimate back |
| DeconvProps.IteratesShift | scripts/.ipynb_checkpoints/algorithm-checkpoint.py:122-172 | after one successful update, the later iterates and settling points are those of the new estimate, shifted by one |
| DeconvProps.RunTrace | scripts/.ipynb_checkpoints/algorithm-checkpoint.py:122-172 | a successful loop needs at least 10 iterations, nodes and `save_figs`; it runs at most `max_iterations` times; its estimate is the iterate it stopped at; it converged exactly when that iterate settled, and otherwise ran to the last iteration; no earlier iterate settled |
| DeconvProps.RunErrors | scripts/.ipynb_checkpoints/algorithm-checkpoint.py:122-172 | `final_rank` is unbound exactly when no iteration runs; `directory` is unbound exactly at iteration 0 without `save_figs`; a failed update is the error of some iterate; the modulo by zero needs 1 to 9 iterations; an empty `max` needs an empty graph |
| DeconvProps.RunSucceeds | scripts/.ipynb_checkpoints/algorithm-checkpoint.py:122-172 | with at least 10 iterations, `save_figs`, nodes and updates that never fail, the loop succeeds |
| DeconvProps.IteratesPositive | scripts/.ipynb_checkpoints/algorithm-checkpoint.py:130-152 | from positive counts and estimate every iterate exists and is positive |
| DeconvProps.DeconvSucceeds | scripts/.ipynb_checkpoints/algorithm-checkpoint.py:26-179 | with positive counts, `save_figs` and at least 10 iterations, `deconv` succeeds exactly when the secret string was observed |
| DeconvProps.FinishRanksMeaning | scripts/.ipynb_checkpoints/algorithm-checkpoint.py:163-179 | a record needs a finished loop and an observed secret; its ranks are one plus the secret's position before and after the loop, both in 1..nodes, and the difference is final minus initial; after a finished loop, `None - None` is raised exactly when the secret is not a node; a loop error is passed on |
| DeconvProps.DeconvRanks | scripts/.ipynb_checkpoints/algorithm-checkpoint.py:26-179 | a rank record needs an observed secret; both ranks lie in 1..number of keys and the difference is final minus initial; a missing rank means the secret was not observed |
| RanksFile.WriteLine | scripts/.ipynb_checkpoints/algorithm-checkpoint.py:177-179 | one `file.write(f"...: {v}\n")` line; `LineOfShape` states its shape |
| RanksFile.FormatRanks | scripts/.ipynb_checkpoints/algorithm-checkpoint.py:176-179 | the text of `ranks.txt`: the three lines in order; `RanksRoundTrip` reads it back |
| RanksFile.NatToString | scripts/.ipynb_checkpoints/algorithm-checkpoint.py:177-179 | `str` of a non-negative int is a non-empty run of decimal digits |
| RanksFile.IntToString | scripts/.ipynb_checkpoints/algorithm-checkpoint.py:177-179 | `str` of an int is digits with a leading '-' exactly for negatives |
| RanksParse.ContainsIffOccurs | scripts/.ipynb_checkpoints/analyze-checkpoint.py:29 | `label in line` holds exactly when the label occurs at some index |
| RanksParse.AfterLastColon | scripts/.ipynb_checkpoints/analyze-checkpoint.py:31 | `line.split(":")[-1]`; `AfterLastColonSpec` characterises it |
| RanksParse.AfterLastColonSpec | scripts/.ipynb_checkpoints/analyze-checkpoint.py:31 | `split(":")[-1]` is the colon-free end of the line, preceded by ':' unless it is the whole line |
| RanksParse.AfterColon | scripts/.ipynb_checkpoints/analyze-checkpoint.py:31 | after a ':' followed by colon-free text, `split(":")[-1]` is that text |
| RanksParse.Strip | scripts/.ipynb_checkpoints/analyze-checkpoint.py:31 | `strip()`; `StripIsSlice` characterises it |
| RanksParse.StripLeftSpec | scripts/.ipynb_checkpoints/analyze-checkpoint.py:31 | the left strip removes a prefix of whitespace and stops at a non-space |
| RanksParse.StripRightSpec | scripts/.ipynb_checkpoints/analyze-checkpoint.py:31 | the right strip removes a suffix of whitespace and stops at a non-space |
| RanksParse.StripIsSlice | scripts/.ipynb_checkpoints/analyze-checkpoint.py:31 | `strip()` is the slice between the leading and trailing whitespace and neither starts nor ends with whitespace |
| RanksParse.StripPadded | scripts/.ipynb_checkpoints/analyze-checkpoint.py:31 | stripping " value\n" gives the value back |
| RanksParse.ParseInt | scripts/.ipynb_checkpoints/analyze-checkpoint.py:31 | `int()` on a stripped value, `None` for a `ValueError`; `ParseIntShape` and `IntRoundTrip` state when it succeeds and what it gives |
| RanksParse.ValidDigitsIff | scripts/.ipynb_checkpoints/analyze-checkpoint.py:31 | the digit grammar `int` accepts, read from the right, is digits with single underscores between digits |
| RanksParse.ParseIntShape | scripts/.ipynb_checkpoints/analyze-checkpoint.py:31 | `int` succeeds exactly on an optional sign followed by that grammar; every run of digits parses |
| RanksParse.NatToStringValue | scripts/.ipynb_checkpoints/analyze-checkpoint.py:31 | the digits of `str(k)` are valid and spell k |
| RanksParse.IntRoundTrip | scripts/.ipynb_checkpoints/analyze-checkpoint.py:31 | `int(str(i)) == i` for every integer, negative ones included |
| RanksParse.SplitLines | scripts/.ipynb_checkpoints/analyze-checkpoint.py:22 | `readlines()`; `LineLength`, `SplitLinesCons` and `WrittenLines` state how it splits |
| RanksParse.LineLength | scripts/.ipynb_checkpoints/analyze-checkpoint.py:22 | a line ends at its first newline or at the end of the text |
| RanksParse.SplitLinesCons | scripts/.ipynb_checkpoints/analyze-checkpoint.py:22 | `readlines` takes a newline-free text and its newline as the first line |
| RanksParse.Sight | scripts/.ipynb_checkpoints/analyze-checkpoint.py:29-43 | what one line says about one field: no label, a parsed value, or a value that warns |
| RanksParse.AbsorbEffect | scripts/.ipynb_checkpoints/analyze-checkpoint.py:29-43 | a label block sets its own field to a parsed value, leaves the others, and warns exactly on a value that does not parse |
| RanksParse.ParseLines | scripts/.ipynb_checkpoints/analyze-checkpoint.py:23-43 | the three fields and the warnings after the line loop; `FieldSetIff`, `LastValueWins` and `WarningsExplained` state its meaning |
| RanksParse.ParseLinesCollect | scripts/.ipynb_checkpoints/analyze-checkpoint.py:28-43 | the loop over lines is the loop over what each line says |
| RanksParse.ParseRanksFile | scripts/.ipynb_checkpoints/analyze-checkpoint.py:23-43 | the line loop computes exactly the reference fields and warnings |
| RanksParse.ParseLineEffect | scripts/.ipynb_checkpoints/analyze-checkpoint.py:28-43 | one line sets each field to its parsed value when it has one and warns for a field exactly when its value does not parse |
| RanksParse.CollectSetIff | scripts/.ipynb_checkpoints/analyze-checkpoint.py:28-43 | a field is set exactly when some reading parsed it |
| RanksParse.CollectLastWins | scripts/.ipynb_checkpoints/analyze-checkpoint.py:28-43 | a field holds the value of the last reading that parsed it |
| RanksParse.CollectWarnings | scripts/.ipynb_checkpoints/analyze-checkpoint.py:28-43 | a field is warned about exactly when some reading failed to parse it |
| RanksParse.FieldSetIff | scripts/.ipynb_checkpoints/analyze-checkpoint.py:23-43 | a field is not `None` exactly when some line carries its label with a value that parses |
| RanksParse.LastValueWins | scripts/.ipynb_checkpoints/analyze-checkpoint.py:28-43 | a field holds the value of the last line that carries its label with a value that parses |
| RanksParse.WarningsExplained | scripts/.ipynb_checkpoints/analyze-checkpoint.py:28-43 | a warning is printed for a field exactly when some line carries its label with a value that does not parse |
| RanksParse.NotContains | scripts/.ipynb_checkpoints/analyze-checkpoint.py:29-39 | a label ending in ':' does not occur in a line whose only ':' cannot close it |
| RanksParse.LineOfShape | scripts/.ipynb_checkpoints/algorithm-checkpoint.py:177-179 | a written line has one ':', at the end of its label, and ends with its only newline |
| RanksParse.ReadOwnField | scripts/.ipynb_checkpoints/analyze-checkpoint.py:29-43 | a written line gives its own field the number written |
| RanksParse.ReadOtherField | scripts/.ipynb_checkpoints/analyze-checkpoint.py:29-43 | a written line does not carry the other two labels |
| RanksParse.ReadLineOf | scripts/.ipynb_checkpoints/analyze-checkpoint.py:29-43 | what each written line says about each of the three fields |
| RanksParse.SplitLinesOf | scripts/.ipynb_checkpoints/analyze-checkpoint.py:22 | `readlines` splits a written line off the front of the text |
| RanksParse.WrittenLines | scripts/.ipynb_checkpoints/analyze-checkpoint.py:22 | `readlines` on `ranks.txt` gives the three written lines |
| RanksParse.ParseWritten | scripts/.ipynb_checkpoints/analyze-checkpoint.py:28-43 | the three written lines parse to the three numbers without a warning |
| RanksParse.RanksRoundTrip | scripts/.ipynb_checkpoints/analyze-checkpoint.py:21-43 | reading back the `ranks.txt` written at algorithm-checkpoint.py lines 176-179 gives the initial rank, final rank and (possibly negative) difference, with no warning |
| RanksParse.FinalWarningSaysInitial | scripts/.ipynb_checkpoints/analyze-checkpoint.py:38 | as written, the final-rank warning is the initial-rank warning |
| RanksParse.WarningNamesField | scripts/.ipynb_checkpoints/analyze-checkpoint.py:33-43 | with each block naming its own field, the warnings of different fields differ |
| RanksParse.BadFinalReading | scripts/.ipynb_checkpoints/analyze-checkpoint.py:29-43 | the line `Final rank: x` carries only the final-rank label, with a value that does not parse |
| RanksParse.BadFinalPrintedAsWritten | scripts/.ipynb_checkpoints/analyze-checkpoint.py:34-38 | as written, a `ranks.txt` holding `Final rank: x` prints exactly the initial-rank message |
| RanksParse.BadFinalPrinted | scripts/.ipynb_checkpoints/analyze-checkpoint.py:34-38 | with each block naming its field, the same file prints exactly the final-rank message |
| Analyze.Runs | scripts/.ipynb_checkpoints/analyze-checkpoint.py:16-22 | the run folders of the listing in order, each with its `ranks.txt` parsed; `RunsAppend` and `RunsOfDirs` state its meaning |
| Analyze.Kept | scripts/.ipynb_checkpoints/analyze-checkpoint.py:47 | the filter on `rank_diff` and, with `remove_bad_runs`, on the initial rank |
| Analyze.Counted | scripts/.ipynb_checkpoints/analyze-checkpoint.py:48-49 | the `remove_first_rankers` filter |
| Analyze.Visit | scripts/.ipynb_checkpoints/analyze-checkpoint.py:47-68 | one pass of the folder loop; `VisitFolder` computes it as the source does |
| Analyze.Scan | scripts/.ipynb_checkpoints/analyze-checkpoint.py:16-68 | the folder loop on the runs; `ScanTally`, `ScanErrors` and `ScanBest` state what it computes |
| Analyze.Summarise | scripts/.ipynb_checkpoints/analyze-checkpoint.py:72-87 | the message or the integer statistics; `AnalyzeMeaning` states each case |
| Analyze.AnalyzeResult | scripts/.ipynb_checkpoints/analyze-checkpoint.py:6-93 | the reference result of `analyze_rank_differences`; `AnalyzeMeaning` and `AnalyzeWritten` state its meaning |
| Analyze.SeqMin | scripts/.ipynb_checkpoints/analyze-checkpoint.py:85 | `np.min` is an element of the list and at most every element |
| Analyze.SeqMax | scripts/.ipynb_checkpoints/analyze-checkpoint.py:86 | `np.max` is an element of the list and at least every element |
| Analyze.RunsAppend | scripts/.ipynb_checkpoints/analyze-checkpoint.py:16-20 | the run folders of two listings in sequence are those of each, in order |
| Analyze.ScanErrSticks | scripts/.ipynb_checkpoints/analyze-checkpoint.py:50-60 | once a comparison has raised, later folders change nothing |
| Analyze.ErrOnPrefix | scripts/.ipynb_checkpoints/analyze-checkpoint.py:16-60 | an error raised among the first folders is the error of the call |
| Analyze.VisitFolder | scripts/.ipynb_checkpoints/analyze-checkpoint.py:47-68 | the filtering, counting and best-example updates of one folder compute exactly the reference step |
| Analyze.AnalyzeRankDifferences | scripts/.ipynb_checkpoints/analyze-checkpoint.py:6-93 | the nested loops compute exactly the reference result, and the best example the reference loop reaches |
| AnalyzeProps.ScanTally | scripts/.ipynb_checkpoints/analyze-checkpoint.py:47-64 | `rank_diffs` holds the differences of the kept and counted runs in order; each counter counts the runs with its outcome; wins + ties + losses == len(rank_diffs) |
| AnalyzeProps.ScanErrors | scripts/.ipynb_checkpoints/analyze-checkpoint.py:47-60 | the loop raises exactly when a kept and counted run lacks a rank, naming the first such folder |
| AnalyzeProps.ScanBest | scripts/.ipynb_checkpoints/analyze-checkpoint.py:66-68 | `best_rank_change` is at most 100 and at most every kept difference; the best example is the first kept run whose difference equals `best_rank_change`, which is below 100 |
| AnalyzeProps.BestExists | scripts/.ipynb_checkpoints/analyze-checkpoint.py:12-68 | there is a best example exactly when some kept difference is below 100 |
| AnalyzeProps.AnalyzeMeaning | scripts/.ipynb_checkpoints/analyze-checkpoint.py:72-87 | the call raises exactly when a kept and counted run lacks a rank; otherwise it gives the message exactly when no run was counted, and else the count, the outcome counts, min and max attained among and bounding the differences, and range == max − min |
| AnalyzeProps.RunsOfDirs | scripts/.ipynb_checkpoints/analyze-checkpoint.py:16-22 | when every entry is a run folder, the runs are the entries with their files parsed |
| AnalyzeProps.KeptWritten | scripts/.ipynb_checkpoints/analyze-checkpoint.py:47-60 | without the two filters, runs holding written records are all kept and counted and never raise |
| AnalyzeProps.AnalyzeWritten | scripts/.ipynb_checkpoints/analyze-checkpoint.py:6-93 | without filters, analysing folders of records `deconv` wrote never raises and keeps every rank difference, in listing order |

## Left out

- Plotting (`graph`, `graph_top`, matplotlib) and the progress and convergence `print`s are not modelled. Their only effect kept is the `directory` the first plot reads.
- File system I/O is not modelled: `os.makedirs`, opening and writing `ranks.txt`, `os.listdir`, `isdir`/`isfile` and `open`. The rank record is returned as a value. The directory listing is a parameter: a sequence of entries, each carrying its path, whether it is a run folder with a `ranks.txt`, and that file's text.
- `readlines` is modelled on `\n` only. Universal-newline translation (`\r\n`, `\r`) happens in `open` and is not modelled.
- `int()` accepts only ASCII digits here. Python also accepts other Unicode decimal digits.
- Floating point is not modelled: probabilities are exact reals.
  - `tolerance` is an arbitrary real.
  - Nothing is claimed about convergence, or about the iteration improving the rank.
- The numpy statistics `mean`, `std_dev` and `median` (analyze-checkpoint.py lines 82-84) are not modelled; they are floating-point library calls.
- The order in which networkx's `single_source_shortest_path_length` visits nodes is not modelled. Only the set of nodes it returns is, which is all `get_n_away_neighbors` uses.
- The deep copies of the networkx graph are not modelled: the estimate is a map value, and the previous estimate is a value copy.
- A Python `dict` of counts is a sequence of pairs with distinct keys, in insertion order.
- `scripts/deconvolve_dataset.py` and `build_BV` are not part of this model.
- `best_example` is returned beside the result of `Analyze.AnalyzeRankDifferences`. The Python function computes it but returns it only inside a commented-out dictionary entry.
- Analyze.Summarise: the rank differences are unbounded integers. When every value fits `int64`, `np.array(rank_diffs)` stores them as `int64`, and `max - min` wraps when their spread exceeds 2^63−1: for differences −2^62 and 2^62 numpy's range is −2^63, where `Summarise` gives 2^63. Larger values change numpy's dtype. Neither is modelled. Values that `deconv` writes are ranks bounded by the number of nodes and cannot reach that width.
- DeconvRanks: states the ranks' range and difference but not their positions. It leaves out that they are one plus the secret's position before and after the loop. That statement is made on the loop's result by `DeconvProps.FinishRanksMeaning`, where the position is well defined.

## Findings

| source | as written | input that shows it | evidently intended | confidence | as-written member | corrected member |
|---|---|---|---|---|---|---|
| scripts/.ipynb_checkpoints/analyze-checkpoint.py:38 | a final rank that does not parse prints "Could not parse initial rank" | a `ranks.txt` whose line is `Final rank: x` | the message names the final rank | high (not executed) | RanksParse.BadFinalPrintedAsWritten | RanksParse.BadFinalPrinted |
