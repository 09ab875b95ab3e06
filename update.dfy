/** One iteration of the deconvolution in `deconv`
    (`scripts/.ipynb_checkpoints/algorithm-checkpoint.py`, lines 130-152): the consistency
    term `c`, the correction factors, the multiplicative update of `u` and its normalisation.
    Probabilities are exact reals. */
module Update {
  import opened Wrappers
  import opened Hamming
  import opened BinaryFormat
  import opened HypercubeGraph
  import opened Rank

  /** The two divisions of the step that Python lets raise `ZeroDivisionError`. */
  datatype StepError = CorrectionDivByZero | NormaliseDivByZero

  /** The kernel `1/(hamming_dist(a, b) + 1)`. */
  function Weight(a: string, b: string): real {
    1.0 / ((HammingDist(a, b) + 1) as real)
  }

  /** The kernel is positive, at most 1, and 1 exactly between equal strings of equal length. */
  lemma WeightBounds(a: string, b: string)
    ensures 0.0 < Weight(a, b) <= 1.0
    ensures |a| == |b| ==> (Weight(a, b) == 1.0 <==> a == b)
    ensures Weight(a, a) == 1.0
  {
    DistSelf(a);
    if |a| == |b| { DistZeroIffEqual(a, b); }
  }

  predicate NonNegative(p: Dist) {
    forall k :: k in p ==> p[k] >= 0.0
  }

  predicate PositiveOn(s: seq<string>, p: Dist) {
    forall i :: 0 <= i < |s| ==> s[i] in p && p[s[i]] > 0.0
  }

  // ---------------------------------------------------------------------------------------
  // The consistency term c

  /** `{format(index, f"0{n}b"): 0 for index in range(2**n)}`. */
  function TemplateMap(n: nat): Dist {
    map k | k in TemplateKeys(n) :: 0.0
  }

  /** `sum(1/(hamming_dist(obs, t)+1) * u[t] for t in nb)`, summed in the order of `ts`. */
  function ConsistencySum(ts: seq<string>, nb: set<string>, obs: string, u: Dist): real
    requires Covers(ts, u)
  {
    if ts == [] then 0.0
    else (if ts[0] in nb then Weight(obs, ts[0]) * u[ts[0]] else 0.0)
         + ConsistencySum(ts[1..], nb, obs, u)
  }

  /** `c` after the loop at lines 131-134: the template, overwritten at every observed node by
      the weighted mass of `u` within Hamming distance `n` of it in the graph. */
  function ConsistencyMap(g: Graph, u: Dist, n: nat): (c: Dist)
    requires Covers(g.nodes, u)
    ensures c.Keys == TemplateKeys(n) + NodeSet(g)
  {
    TemplateMap(n) + map o | o in NodeSet(g) :: NodeValue(g, u, n, o)
  }

  /** The value written at observed string `o`. */
  function NodeValue(g: Graph, u: Dist, n: nat, o: string): real
    requires Covers(g.nodes, u)
  {
    ConsistencySum(g.nodes, Reach(g, o, n), o, u)
  }

  /** The values written at the observed strings of `s`. */
  function NodeValues(g: Graph, u: Dist, n: nat, s: set<string>): Dist
    requires Covers(g.nodes, u)
  {
    map o | o in s :: NodeValue(g, u, n, o)
  }

  /** The template overwritten at the strings of `s`. */
  function ConsistencyOn(g: Graph, u: Dist, n: nat, s: set<string>): Dist
    requires Covers(g.nodes, u)
  {
    TemplateMap(n) + NodeValues(g, u, n, s)
  }

  lemma NodeValuesInsert(g: Graph, u: Dist, n: nat, s: set<string>, o: string)
    requires Covers(g.nodes, u)
    ensures NodeValues(g, u, n, s + {o}) == NodeValues(g, u, n, s)[o := NodeValue(g, u, n, o)]
  {
    var a := NodeValues(g, u, n, s + {o});
    var b := NodeValues(g, u, n, s)[o := NodeValue(g, u, n, o)];
    assert a.Keys == b.Keys;
    forall k | k in a ensures a[k] == b[k] { }
  }

  lemma MergeUpdate(t: Dist, m: Dist, k: string, v: real)
    ensures t + m[k := v] == (t + m)[k := v]
  {
    var a := t + m[k := v];
    var b := (t + m)[k := v];
    assert a.Keys == b.Keys;
    forall j | j in a ensures a[j] == b[j] { }
  }

  lemma ConsistencyOnInsert(g: Graph, u: Dist, n: nat, s: set<string>, o: string)
    requires Covers(g.nodes, u)
    ensures ConsistencyOn(g, u, n, s + {o}) == ConsistencyOn(g, u, n, s)[o := NodeValue(g, u, n, o)]
  {
    NodeValuesInsert(g, u, n, s, o);
    MergeUpdate(TemplateMap(n), NodeValues(g, u, n, s), o, NodeValue(g, u, n, o));
  }

  /** `c` once the first `i` observed strings have been written. */
  function ConsistencyPrefix(g: Graph, u: Dist, n: nat, i: nat): Dist
    requires Covers(g.nodes, u) && i <= |g.nodes|
  {
    ConsistencyOn(g, u, n, SetOf(g.nodes[..i]))
  }

  lemma ConsistencyPrefixStep(g: Graph, u: Dist, n: nat, i: nat)
    requires Covers(g.nodes, u) && i < |g.nodes|
    ensures ConsistencyPrefix(g, u, n, i + 1) ==
            ConsistencyPrefix(g, u, n, i)[g.nodes[i] := NodeValue(g, u, n, g.nodes[i])]
  {
    SetOfSnoc(g.nodes, i);
    ConsistencyOnInsert(g, u, n, SetOf(g.nodes[..i]), g.nodes[i]);
  }

  method ComputeConsistency(g: Graph, u: Dist, n: nat) returns (c: Dist)
    requires WellFormed(g) && Covers(g.nodes, u)
    ensures c == ConsistencyMap(g, u, n)
  {
    c := TemplateMap(n);
    assert g.nodes[..0] == [];
    assert c == ConsistencyPrefix(g, u, n, 0);
    var i := 0;
    while i < |g.nodes|
      invariant 0 <= i <= |g.nodes|
      invariant c == ConsistencyPrefix(g, u, n, i)
    {
      var obs := g.nodes[i];
      var nb := NAwayNeighbors(g, obs, n);
      c := c[obs := ConsistencySum(g.nodes, nb.value, obs, u)];
      ConsistencyPrefixStep(g, u, n, i);
      i := i + 1;
    }
    assert g.nodes[..i] == g.nodes;
  }

  lemma {:induction false} ConsistencySumNonNegative(ts: seq<string>, nb: set<string>, obs: string, u: Dist)
    requires Covers(ts, u) && NonNegative(u)
    ensures ConsistencySum(ts, nb, obs, u) >= 0.0
  {
    if ts != [] {
      ConsistencySumNonNegative(ts[1..], nb, obs, u);
      TermBounds(obs, ts[0], ts[0] in nb, u[ts[0]]);
    }
  }

  lemma {:induction false} ConsistencySumAtLeast(ts: seq<string>, nb: set<string>, obs: string, u: Dist)
    requires Covers(ts, u) && NonNegative(u)
    requires obs in ts && obs in nb
    ensures ConsistencySum(ts, nb, obs, u) >= u[obs]
  {
    TermBounds(obs, ts[0], ts[0] in nb, u[ts[0]]);
    if ts[0] == obs {
      ConsistencySumNonNegative(ts[1..], nb, obs, u);
    } else {
      assert obs in ts[1..];
      ConsistencySumAtLeast(ts[1..], nb, obs, u);
    }
  }

  /** One term of the sum is non-negative, and is the whole mass at the observed string itself. */
  lemma TermBounds(obs: string, t: string, inNb: bool, x: real)
    requires x >= 0.0
    ensures (if inNb then Weight(obs, t) * x else 0.0) >= 0.0
    ensures inNb && t == obs ==> (if inNb then Weight(obs, t) * x else 0.0) == x
  {
    WeightBounds(obs, t);
  }

  /** `c` is 0 on template strings nobody observed, and at an observed string is at least its own `u` mass (its own term has
      weight 1) when `u` is non-negative. */
  lemma ConsistencyShape(g: Graph, u: Dist, n: nat)
    requires WellFormed(g) && Covers(g.nodes, u)
    ensures forall k :: k in TemplateKeys(n) && k !in NodeSet(g) ==> ConsistencyMap(g, u, n)[k] == 0.0
    ensures NonNegative(u) ==>
              NonNegative(ConsistencyMap(g, u, n)) &&
              forall o :: o in NodeSet(g) ==> ConsistencyMap(g, u, n)[o] >= u[o]
  {
    if NonNegative(u) {
      var c := ConsistencyMap(g, u, n);
      forall o | o in NodeSet(g) ensures c[o] >= u[o] && c[o] >= 0.0 {
        ReachMonotone(g, o, n, n);
        ConsistencySumNonNegative(g.nodes, Reach(g, o, n), o, u);
        ConsistencySumAtLeast(g.nodes, Reach(g, o, n), o, u);
      }
    }
  }

  // ---------------------------------------------------------------------------------------
  // The correction factors

  /** `sum(d[o] / c[o] * 1/(hamming_dist(o, t)+1) for o in nb)`, summed in the order of `ts`;
      the first term with `c[o] == 0` raises. */
  function CorrectionSum(ts: seq<string>, nb: set<string>, t: string, d: Dist, c: Dist)
    : (r: Result<real, StepError>)
    requires Covers(ts, d) && Covers(ts, c)
    ensures r.Err? <==> exists k :: 0 <= k < |ts| && ts[k] in nb && c[ts[k]] == 0.0
  {
    if ts == [] then Ok(0.0)
    else if ts[0] in nb && c[ts[0]] == 0.0 then Err(CorrectionDivByZero)
    else
      var rest := CorrectionSum(ts[1..], nb, t, d, c);
      assert rest.Err? <==> exists k :: 0 <= k < |ts| && ts[k] in nb && c[ts[k]] == 0.0 by {
        forall k | 1 <= k < |ts| ensures ts[k] == ts[1..][k - 1] { }
        forall k | 0 <= k < |ts| - 1 ensures ts[1..][k] == ts[k + 1] { }
      }
      match rest
      case Err(e) => Err(e)
      case Ok(s) => Ok((if ts[0] in nb then d[ts[0]] / c[ts[0]] * Weight(ts[0], t) else 0.0) + s)
  }

  predicate NoZeroOn(g: Graph, c: Dist)
    requires Covers(g.nodes, c)
  {
    forall i :: 0 <= i < |g.nodes| ==> c[g.nodes[i]] != 0.0
  }

  /** The factor of observed string `t`, when its neighbourhood sum does not fail. */
  function CorrectionValue(g: Graph, d: Dist, c: Dist, n: nat, t: string): real
    requires Covers(g.nodes, d) && Covers(g.nodes, c)
  {
    match CorrectionSum(g.nodes, Reach(g, t, n), t, d, c)
    case Ok(v) => v
    case Err(_) => 0.0
  }

  /** `correction` after the loop at lines 138-141: keyed like `c`, 0 off the observed strings;
      the loop raises exactly when `c` vanishes at some observed string (the `NoZeroOn` test below). */
  function CorrectionMap(g: Graph, d: Dist, c: Dist, n: nat): (r: Result<Dist, StepError>)
    requires Covers(g.nodes, d) && Covers(g.nodes, c)
    ensures r.Ok? ==> r.value.Keys == c.Keys
  {
    if !NoZeroOn(g, c) then Err(CorrectionDivByZero)
    else Ok(map k | k in c :: if k in NodeSet(g) then CorrectionValue(g, d, c, n, k) else 0.0)
  }

  /** `correction` once the first `i` observed strings have been written. */
  function CorrectionPrefix(g: Graph, d: Dist, c: Dist, n: nat, i: nat): Dist
    requires Covers(g.nodes, d) && Covers(g.nodes, c) && i <= |g.nodes|
  {
    map k | k in c :: if k in SetOf(g.nodes[..i]) then CorrectionValue(g, d, c, n, k) else 0.0
  }

  lemma CorrectionPrefixStep(g: Graph, d: Dist, c: Dist, n: nat, i: nat)
    requires Covers(g.nodes, d) && Covers(g.nodes, c) && i < |g.nodes|
    ensures CorrectionPrefix(g, d, c, n, i + 1) ==
            CorrectionPrefix(g, d, c, n, i)[g.nodes[i] := CorrectionValue(g, d, c, n, g.nodes[i])]
  {
    SetOfSnoc(g.nodes, i);
  }

  lemma CorrectionPrefixNone(g: Graph, d: Dist, c: Dist, n: nat)
    requires Covers(g.nodes, d) && Covers(g.nodes, c)
    ensures CorrectionPrefix(g, d, c, n, 0) == map k | k in c :: 0.0
  {
    assert SetOf(g.nodes[..0]) == {};
  }

  lemma CorrectionPrefixAll(g: Graph, d: Dist, c: Dist, n: nat)
    requires Covers(g.nodes, d) && Covers(g.nodes, c) && NoZeroOn(g, c)
    ensures CorrectionMap(g, d, c, n) == Ok(CorrectionPrefix(g, d, c, n, |g.nodes|))
  {
    assert g.nodes[..|g.nodes|] == g.nodes;
  }

  method ComputeCorrection(g: Graph, d: Dist, c: Dist, n: nat) returns (r: Result<Dist, StepError>)
    requires WellFormed(g) && Covers(g.nodes, d) && Covers(g.nodes, c)
    ensures r == CorrectionMap(g, d, c, n)
  {
    var corr := map k | k in c :: 0.0;
    CorrectionPrefixNone(g, d, c, n);
    var i := 0;
    while i < |g.nodes|
      invariant 0 <= i <= |g.nodes|
      invariant forall j :: 0 <= j < i ==> c[g.nodes[j]] != 0.0
      invariant corr == CorrectionPrefix(g, d, c, n, i)
    {
      var t := g.nodes[i];
      var nb := NAwayNeighbors(g, t, n);
      ReachInGraph(g, t, n);
      var s := CorrectionSum(g.nodes, nb.value, t, d, c);
      if s.Err? {
        var k :| 0 <= k < |g.nodes| && g.nodes[k] in nb.value && c[g.nodes[k]] == 0.0;
        return Err(CorrectionDivByZero);
      }
      ReachMonotone(g, t, n, n);
      corr := corr[t := s.value];
      CorrectionPrefixStep(g, d, c, n, i);
      i := i + 1;
    }
    CorrectionPrefixAll(g, d, c, n);
    return Ok(corr);
  }

  // ---------------------------------------------------------------------------------------
  // Update and normalisation

  /** The loop at lines 144-145: every observed string's mass is multiplied by its factor. */
  function Updated(g: Graph, u: Dist, corr: Dist): (r: Dist)
    requires NodeSet(g) <= corr.Keys
    ensures r.Keys == u.Keys
  {
    map v | v in u :: if v in NodeSet(g) then u[v] * corr[v] else u[v]
  }

  function UpdatedPrefix(g: Graph, u: Dist, corr: Dist, i: nat): Dist
    requires NodeSet(g) <= corr.Keys && i <= |g.nodes|
  {
    map v | v in u :: if v in SetOf(g.nodes[..i]) then u[v] * corr[v] else u[v]
  }

  lemma UpdatedPrefixStep(g: Graph, u: Dist, corr: Dist, i: nat, t: string)
    requires WellFormed(g) && NodeSet(g) <= u.Keys && NodeSet(g) <= corr.Keys
    requires i < |g.nodes| && t == g.nodes[i]
    ensures UpdatedPrefix(g, u, corr, i)[t] == u[t]
    ensures UpdatedPrefix(g, u, corr, i + 1) == UpdatedPrefix(g, u, corr, i)[t := u[t] * corr[t]]
  {
    SetOfSnoc(g.nodes, i);
    assert t !in SetOf(g.nodes[..i]);
    var a := UpdatedPrefix(g, u, corr, i + 1);
    var b := UpdatedPrefix(g, u, corr, i)[t := u[t] * corr[t]];
    assert a.Keys == b.Keys;
    forall v | v in a ensures a[v] == b[v] { }
  }

  lemma UpdatedPrefixNone(g: Graph, u: Dist, corr: Dist)
    requires NodeSet(g) <= corr.Keys
    ensures UpdatedPrefix(g, u, corr, 0) == u
  {
    assert SetOf(g.nodes[..0]) == {};
    var a := UpdatedPrefix(g, u, corr, 0);
    assert a.Keys == u.Keys;
    forall v | v in a ensures a[v] == u[v] { }
  }

  lemma UpdatedPrefixAll(g: Graph, u: Dist, corr: Dist)
    requires NodeSet(g) <= corr.Keys
    ensures UpdatedPrefix(g, u, corr, |g.nodes|) == Updated(g, u, corr)
  {
    assert g.nodes[..|g.nodes|] == g.nodes;
  }

  method ApplyCorrection(g: Graph, u: Dist, corr: Dist) returns (u': Dist)
    requires WellFormed(g) && NodeSet(g) <= u.Keys && NodeSet(g) <= corr.Keys
    ensures u' == Updated(g, u, corr)
  {
    u' := u;
    UpdatedPrefixNone(g, u, corr);
    var i := 0;
    while i < |g.nodes|
      invariant 0 <= i <= |g.nodes|
      invariant u' == UpdatedPrefix(g, u, corr, i)
    {
      var t := g.nodes[i];
      UpdatedPrefixStep(g, u, corr, i, t);
      var scaled := u'[t] * corr[t];
      assert scaled == u[t] * corr[t];
      u' := u'[t := scaled];
      i := i + 1;
    }
    UpdatedPrefixAll(g, u, corr);
  }

  /** The running sum `total_probs` over the nodes, in node order. */
  function Total(ts: seq<string>, u: Dist): real
    requires Covers(ts, u)
  {
    if ts == [] then 0.0 else Total(ts[..|ts| - 1], u) + u[ts[|ts| - 1]]
  }

  /** Lines 147-152: divide every mass by the total; with no nodes nothing is divided. */
  function Normalized(g: Graph, u: Dist): (r: Result<Dist, StepError>)
    requires Covers(g.nodes, u)
    ensures r.Ok? ==> r.value.Keys == u.Keys
  {
    if g.nodes == [] then Ok(u)
    else
      var total := Total(g.nodes, u);
      if total == 0.0 then Err(NormaliseDivByZero) else Ok(map v | v in u :: u[v] / total)
  }

  /** The loop at lines 147-149. */
  method TotalMass(g: Graph, u: Dist) returns (total: real)
    requires Covers(g.nodes, u)
    ensures total == Total(g.nodes, u)
  {
    total := 0.0;
    var i := 0;
    while i < |g.nodes|
      invariant 0 <= i <= |g.nodes|
      invariant total == Total(g.nodes[..i], u)
    {
      assert g.nodes[..i + 1][..i] == g.nodes[..i];
      total := total + u[g.nodes[i]];
      i := i + 1;
    }
    assert g.nodes[..i] == g.nodes;
  }

  function NormalizedPrefix(g: Graph, u: Dist, total: real, i: nat): Dist
    requires total != 0.0 && i <= |g.nodes|
  {
    map v | v in u :: if v in SetOf(g.nodes[..i]) then u[v] / total else u[v]
  }

  lemma NormalizedPrefixStep(g: Graph, u: Dist, total: real, i: nat, t: string)
    requires WellFormed(g) && NodeSet(g) <= u.Keys && total != 0.0
    requires i < |g.nodes| && t == g.nodes[i]
    ensures NormalizedPrefix(g, u, total, i)[t] == u[t]
    ensures NormalizedPrefix(g, u, total, i + 1) == NormalizedPrefix(g, u, total, i)[t := u[t] / total]
  {
    SetOfSnoc(g.nodes, i);
    assert t !in SetOf(g.nodes[..i]);
    var a := NormalizedPrefix(g, u, total, i + 1);
    var b := NormalizedPrefix(g, u, total, i)[t := u[t] / total];
    assert a.Keys == b.Keys;
    forall v | v in a ensures a[v] == b[v] { }
  }

  lemma NormalizedPrefixNone(g: Graph, u: Dist, total: real)
    requires total != 0.0
    ensures NormalizedPrefix(g, u, total, 0) == u
  {
    assert SetOf(g.nodes[..0]) == {};
    var a := NormalizedPrefix(g, u, total, 0);
    assert a.Keys == u.Keys;
    forall v | v in a ensures a[v] == u[v] { }
  }

  lemma NormalizedPrefixAll(g: Graph, u: Dist, total: real)
    requires u.Keys == NodeSet(g) && total != 0.0
    ensures NormalizedPrefix(g, u, total, |g.nodes|) == map v | v in u :: u[v] / total
  {
    assert g.nodes[..|g.nodes|] == g.nodes;
  }

  method Normalize(g: Graph, u: Dist) returns (r: Result<Dist, StepError>)
    requires WellFormed(g) && u.Keys == NodeSet(g)
    ensures r == Normalized(g, u)
  {
    var total := TotalMass(g, u);
    if g.nodes == [] {
      return Ok(u);
    }
    if total == 0.0 {
      return Err(NormaliseDivByZero);
    }
    var u' := u;
    NormalizedPrefixNone(g, u, total);
    var i := 0;
    while i < |g.nodes|
      invariant 0 <= i <= |g.nodes|
      invariant u' == NormalizedPrefix(g, u, total, i)
    {
      var t := g.nodes[i];
      NormalizedPrefixStep(g, u, total, i, t);
      var scaled := u'[t] / total;
      assert scaled == u[t] / total;
      u' := u'[t := scaled];
      i := i + 1;
    }
    NormalizedPrefixAll(g, u, total);
    return Ok(u');
  }

  // ---------------------------------------------------------------------------------------
  // One whole iteration

  /** Lines 130-152 as one function of the observed counts `d` and the current estimate `u`;
      `n` is the neighbourhood radius `len(secret_string)`. */
  function Step(g: Graph, d: Dist, u: Dist, n: nat): (r: Result<Dist, StepError>)
    requires WellFormed(g) && d.Keys == NodeSet(g) && u.Keys == NodeSet(g)
    ensures r.Ok? ==> r.value.Keys == NodeSet(g)
  {
    var c := ConsistencyMap(g, u, n);
    match CorrectionMap(g, d, c, n)
    case Err(e) => Err(e)
    case Ok(corr) => Normalized(g, Updated(g, u, corr))
  }

  method Iterate(g: Graph, d: Dist, u: Dist, n: nat) returns (r: Result<Dist, StepError>)
    requires WellFormed(g) && d.Keys == NodeSet(g) && u.Keys == NodeSet(g)
    ensures r == Step(g, d, u, n)
  {
    var c := ComputeConsistency(g, u, n);
    var corr := ComputeCorrection(g, d, c, n);
    if corr.Err? {
      return Err(corr.error);
    }
    var u1 := ApplyCorrection(g, u, corr.value);
    assert Step(g, d, u, n) == Normalized(g, u1);
    r := Normalize(g, u1);
  }

  lemma DivSelf(x: real)
    requires x != 0.0
    ensures x / x == 1.0
  {
  }

  lemma SignRules(a: real, b: real)
    ensures a >= 0.0 && b >= 0.0 ==> a * b >= 0.0
    ensures a > 0.0 && b > 0.0 ==> a * b > 0.0
    ensures a >= 0.0 && b > 0.0 ==> a / b >= 0.0
    ensures a > 0.0 && b > 0.0 ==> a / b > 0.0
  {
  }

  lemma {:induction false} TotalScaled(ts: seq<string>, u: Dist, total: real)
    requires Covers(ts, u) && total != 0.0
    ensures Covers(ts, map v | v in u :: u[v] / total)
    ensures Total(ts, map v | v in u :: u[v] / total) == Total(ts, u) / total
  {
    if ts != [] {
      var init := ts[..|ts| - 1];
      TotalScaled(init, u, total);
      var a := Total(init, u);
      var b := u[ts[|ts| - 1]];
      assert a / total + b / total == (a + b) / total;
    }
  }

  lemma {:induction false} TotalSign(ts: seq<string>, u: Dist)
    requires Covers(ts, u)
    ensures NonNegative(u) ==> Total(ts, u) >= 0.0
    ensures PositiveOn(ts, u) && ts != [] ==> Total(ts, u) > 0.0
  {
    if ts != [] {
      var init := ts[..|ts| - 1];
      TotalSign(init, u);
      if PositiveOn(ts, u) && init != [] {
        assert PositiveOn(init, u) by {
          forall i | 0 <= i < |init| ensures init[i] in u && u[init[i]] > 0.0 { assert init[i] == ts[i]; }
        }
      }
    }
  }

  lemma {:induction false} CorrectionSumAtLeast(ts: seq<string>, nb: set<string>, t: string, d: Dist, c: Dist)
    requires Covers(ts, d) && Covers(ts, c) && NonNegative(d) && NonNegative(c)
    requires CorrectionSum(ts, nb, t, d, c).Ok?
    ensures CorrectionSum(ts, nb, t, d, c).value >= 0.0
    ensures t in ts && t in nb ==> CorrectionSum(ts, nb, t, d, c).value >= d[t] / c[t]
  {
    if ts != [] {
      CorrectionSumAtLeast(ts[1..], nb, t, d, c);
      var o := ts[0];
      if o in nb {
        WeightBounds(o, t);
        var q := d[o] / c[o];
        assert q >= 0.0;
        assert q * Weight(o, t) >= 0.0;
        if o == t { assert Weight(o, t) == 1.0; }
      }
    }
  }

  lemma NormalizedSumsToOne(g: Graph, u: Dist)
    requires Covers(g.nodes, u) && Normalized(g, u).Ok? && g.nodes != []
    ensures Total(g.nodes, Normalized(g, u).value) == 1.0
  {
    var total := Total(g.nodes, u);
    TotalScaled(g.nodes, u, total);
    DivSelf(total);
  }

  /** After a successful iteration over a non-empty graph the estimate sums to 1. */
  lemma StepSumsToOne(g: Graph, d: Dist, u: Dist, n: nat)
    requires WellFormed(g) && d.Keys == NodeSet(g) && u.Keys == NodeSet(g)
    ensures Step(g, d, u, n).Ok? && g.nodes != [] ==> Total(g.nodes, Step(g, d, u, n).value) == 1.0
  {
    var c := ConsistencyMap(g, u, n);
    if CorrectionMap(g, d, c, n).Ok? && g.nodes != [] {
      var u1 := Updated(g, u, CorrectionMap(g, d, c, n).value);
      if Normalized(g, u1).Ok? {
        NormalizedSumsToOne(g, u1);
      }
    }
  }

  lemma CorrectionSign(g: Graph, d: Dist, c: Dist, n: nat)
    requires WellFormed(g) && d.Keys == NodeSet(g) && Covers(g.nodes, c)
    requires NonNegative(d) && NonNegative(c)
    ensures CorrectionMap(g, d, c, n).Ok? ==> NonNegative(CorrectionMap(g, d, c, n).value)
    ensures PositiveOn(g.nodes, d) && PositiveOn(g.nodes, c) ==>
              CorrectionMap(g, d, c, n).Ok? && PositiveOn(g.nodes, CorrectionMap(g, d, c, n).value)
  {
    if NoZeroOn(g, c) {
      var corr := CorrectionMap(g, d, c, n).value;
      forall k | k in corr
        ensures corr[k] >= 0.0
        ensures k in NodeSet(g) && PositiveOn(g.nodes, d) ==> corr[k] > 0.0
      {
        if k in NodeSet(g) {
          ReachInGraph(g, k, n);
          ReachMonotone(g, k, n, n);
          CorrectionSumAtLeast(g.nodes, Reach(g, k, n), k, d, c);
          if PositiveOn(g.nodes, d) {
            var i :| 0 <= i < |g.nodes| && g.nodes[i] == k;
            SignRules(d[k], c[k]);
          }
        }
      }
    }
    if PositiveOn(g.nodes, c) {
      assert NoZeroOn(g, c);
    }
  }

  lemma UpdatedSign(g: Graph, u: Dist, corr: Dist)
    requires NodeSet(g) <= corr.Keys
    ensures NonNegative(u) && NonNegative(corr) ==> NonNegative(Updated(g, u, corr))
    ensures PositiveOn(g.nodes, u) && PositiveOn(g.nodes, corr) ==> PositiveOn(g.nodes, Updated(g, u, corr))
  {
    var u1 := Updated(g, u, corr);
    if NonNegative(u) && NonNegative(corr) {
      forall v | v in u1 ensures u1[v] >= 0.0 { if v in NodeSet(g) { SignRules(u[v], corr[v]); } }
    }
    if PositiveOn(g.nodes, u) && PositiveOn(g.nodes, corr) {
      forall i | 0 <= i < |g.nodes| ensures g.nodes[i] in u1 && u1[g.nodes[i]] > 0.0 {
        SignRules(u[g.nodes[i]], corr[g.nodes[i]]);
      }
    }
  }

  lemma NormalizedSign(g: Graph, u: Dist)
    requires Covers(g.nodes, u)
    ensures NonNegative(u) && Normalized(g, u).Ok? ==> NonNegative(Normalized(g, u).value)
    ensures PositiveOn(g.nodes, u) ==> Normalized(g, u).Ok? && PositiveOn(g.nodes, Normalized(g, u).value)
  {
    if g.nodes != [] {
      var total := Total(g.nodes, u);
      TotalSign(g.nodes, u);
      if total != 0.0 {
        var u' := Normalized(g, u).value;
        if NonNegative(u) {
          forall v | v in u' ensures u'[v] >= 0.0 { SignRules(u[v], total); }
        }
        if PositiveOn(g.nodes, u) {
          forall i | 0 <= i < |g.nodes| ensures g.nodes[i] in u' && u'[g.nodes[i]] > 0.0 {
            SignRules(u[g.nodes[i]], total);
          }
        }
      }
    }
  }

  /** Non-negative counts and a non-negative estimate give a non-negative next estimate. */
  lemma StepNonNegative(g: Graph, d: Dist, u: Dist, n: nat)
    requires WellFormed(g) && d.Keys == NodeSet(g) && u.Keys == NodeSet(g)
    requires NonNegative(d) && NonNegative(u)
    ensures Step(g, d, u, n).Ok? ==> NonNegative(Step(g, d, u, n).value)
  {
    ConsistencyShape(g, u, n);
    var c := ConsistencyMap(g, u, n);
    CorrectionSign(g, d, c, n);
    if CorrectionMap(g, d, c, n).Ok? {
      var corr := CorrectionMap(g, d, c, n).value;
      UpdatedSign(g, u, corr);
      NormalizedSign(g, Updated(g, u, corr));
    }
  }

  /** With strictly positive counts and a strictly positive estimate the iteration cannot
      divide by zero, and the next estimate is again strictly positive. */
  lemma StepPositive(g: Graph, d: Dist, u: Dist, n: nat)
    requires WellFormed(g) && d.Keys == NodeSet(g) && u.Keys == NodeSet(g)
    requires PositiveOn(g.nodes, d) && PositiveOn(g.nodes, u)
    ensures Step(g, d, u, n).Ok?
    ensures PositiveOn(g.nodes, Step(g, d, u, n).value)
  {
    assert NonNegative(u) && NonNegative(d) by {
      forall k | k in u ensures u[k] >= 0.0 { var i :| 0 <= i < |g.nodes| && g.nodes[i] == k; }
      forall k | k in d ensures d[k] >= 0.0 { var i :| 0 <= i < |g.nodes| && g.nodes[i] == k; }
    }
    ConsistencyShape(g, u, n);
    var c := ConsistencyMap(g, u, n);
    assert PositiveOn(g.nodes, c) by {
      forall i | 0 <= i < |g.nodes| ensures c[g.nodes[i]] > 0.0 { }
    }
    CorrectionSign(g, d, c, n);
    var corr := CorrectionMap(g, d, c, n).value;
    UpdatedSign(g, u, corr);
    NormalizedSign(g, Updated(g, u, corr));
  }
}
