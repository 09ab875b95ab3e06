/** `get_rank` inside `deconv` (`scripts/.ipynb_checkpoints/algorithm-checkpoint.py`): the nodes
    are sorted by descending `prob` with Python's stable `sorted(..., reverse=True)`, numbered
    from 1 in that order, and the number of the secret string is looked up. */
module Rank {
  import opened Wrappers
  import opened HypercubeGraph

  /** A `prob` labelling of the nodes. */
  type Dist = map<string, real>

  predicate Covers(s: seq<string>, p: Dist) {
    forall i :: 0 <= i < |s| ==> s[i] in p
  }

  /** Stable insertion of `y` into a descending list: after every element whose `prob` is at
      least `y`'s, so among equal `prob`s the element inserted later comes later. */
  function InsertDesc(p: Dist, y: string, l: seq<string>): (r: seq<string>)
    requires y in p && Covers(l, p)
    ensures Covers(r, p) && |r| == |l| + 1
    ensures multiset(r) == multiset(l) + multiset{y}
  {
    if l == [] then [y]
    else if p[l[0]] >= p[y] then
      assert l == [l[0]] + l[1..];
      [l[0]] + InsertDesc(p, y, l[1..])
    else [y] + l
  }

  /** `sorted(u.items(), key=lambda x: x[1], reverse=True)`, as a stable insertion sort. */
  function SortDesc(p: Dist, s: seq<string>): (r: seq<string>)
    requires Covers(s, p)
    ensures Covers(r, p) && |r| == |s|
    ensures multiset(r) == multiset(s)
  {
    if s == [] then []
    else
      assert s == s[..|s| - 1] + [s[|s| - 1]];
      InsertDesc(p, s[|s| - 1], SortDesc(p, s[..|s| - 1]))
  }

  function IndexOf(s: seq<string>, x: string): (i: nat)
    requires x in s
    ensures i < |s| && s[i] == x && x !in s[..i]
  {
    if s[0] == x then 0 else 1 + IndexOf(s[1..], x)
  }

  /** `rank_dict.get(secret_string, None)` where `rank_dict` numbers the sorted keys from 1. */
  function GetRank(order: seq<string>, p: Dist, secret: string): (r: Option<nat>)
    requires Covers(order, p)
    ensures r.Some? <==> secret in order
    ensures r.Some? ==> 1 <= r.value <= |order|
  {
    var sorted := SortDesc(p, order);
    assert secret in sorted <==> secret in multiset(order);
    if secret in sorted then Some(IndexOf(sorted, secret) + 1) else None
  }

  // ---------------------------------------------------------------------------------------
  // Closed form of the position

  function CountAbove(p: Dist, s: seq<string>, v: real): nat
    requires Covers(s, p)
  {
    if s == [] then 0 else (if p[s[0]] > v then 1 else 0) + CountAbove(p, s[1..], v)
  }

  function CountEqual(p: Dist, s: seq<string>, v: real): nat
    requires Covers(s, p)
  {
    if s == [] then 0 else (if p[s[0]] == v then 1 else 0) + CountEqual(p, s[1..], v)
  }

  function CountAtLeast(p: Dist, s: seq<string>, v: real): nat
    requires Covers(s, p)
  {
    if s == [] then 0 else (if p[s[0]] >= v then 1 else 0) + CountAtLeast(p, s[1..], v)
  }

  /** The number of nodes placed before `x`: those with a strictly greater `prob`, and those
      with an equal `prob` that come earlier in insertion order. */
  function Position(p: Dist, s: seq<string>, x: string): nat
    requires Covers(s, p) && x in s
  {
    CountAbove(p, s, p[x]) + CountEqual(p, s[..IndexOf(s, x)], p[x])
  }

  predicate Descending(p: Dist, s: seq<string>)
    requires Covers(s, p)
  {
    forall i, j :: 0 <= i < j < |s| ==> p[s[i]] >= p[s[j]]
  }

  lemma {:induction false} CountsSnoc(p: Dist, s: seq<string>, y: string, v: real)
    requires Covers(s, p) && y in p
    ensures Covers(s + [y], p)
    ensures CountAbove(p, s + [y], v) == CountAbove(p, s, v) + (if p[y] > v then 1 else 0)
    ensures CountEqual(p, s + [y], v) == CountEqual(p, s, v) + (if p[y] == v then 1 else 0)
    ensures CountAtLeast(p, s + [y], v) == CountAtLeast(p, s, v) + (if p[y] >= v then 1 else 0)
  {
    if s != [] {
      assert (s + [y])[1..] == s[1..] + [y];
      CountsSnoc(p, s[1..], y, v);
    }
  }

  lemma {:induction false} AtLeastSplits(p: Dist, s: seq<string>, v: real)
    requires Covers(s, p)
    ensures CountAtLeast(p, s, v) == CountAbove(p, s, v) + CountEqual(p, s, v)
  {
    if s != [] { AtLeastSplits(p, s[1..], v); }
  }

  lemma {:induction false} InsertCount(p: Dist, y: string, l: seq<string>, v: real)
    requires y in p && Covers(l, p)
    ensures CountAtLeast(p, InsertDesc(p, y, l), v) == CountAtLeast(p, l, v) + (if p[y] >= v then 1 else 0)
  {
    if l != [] && p[l[0]] >= p[y] {
      InsertCount(p, y, l[1..], v);
      CountAtLeastCons(p, l[0], InsertDesc(p, y, l[1..]), v);
    } else {
      CountAtLeastCons(p, y, l, v);
    }
  }

  lemma CountAtLeastCons(p: Dist, a: string, r: seq<string>, v: real)
    requires a in p && Covers(r, p)
    ensures Covers([a] + r, p)
    ensures CountAtLeast(p, [a] + r, v) == (if p[a] >= v then 1 else 0) + CountAtLeast(p, r, v)
  {
    assert ([a] + r)[1..] == r;
  }

  lemma {:induction false} SortCount(p: Dist, s: seq<string>, v: real)
    requires Covers(s, p)
    ensures CountAtLeast(p, SortDesc(p, s), v) == CountAtLeast(p, s, v)
  {
    if s != [] {
      var n := |s| - 1;
      var init, y := s[..n], s[n];
      SortCount(p, init, v);
      InsertCount(p, y, SortDesc(p, init), v);
      assert CountAtLeast(p, s, v) == CountAtLeast(p, init, v) + (if p[y] >= v then 1 else 0) by {
        SplitLast(s);
        CountsSnoc(p, init, y, v);
      }
    }
  }

  /** Every element of the insertion is the new one or an old one. */
  lemma InsertMembers(p: Dist, y: string, l: seq<string>)
    requires y in p && Covers(l, p)
    ensures forall z :: z in InsertDesc(p, y, l) ==> z == y || z in l
  {
    forall z | z in InsertDesc(p, y, l) ensures z == y || z in l {
      assert z in multiset(InsertDesc(p, y, l));
    }
  }

  /** A head at least as large as every element of a descending tail keeps it descending. */
  lemma DescendingCons(p: Dist, a: string, r: seq<string>)
    requires a in p && Covers(r, p) && Descending(p, r)
    requires forall z :: z in r ==> p[z] <= p[a]
    ensures Covers([a] + r, p) && Descending(p, [a] + r)
  {
    var out := [a] + r;
    forall i, j | 0 <= i < j < |out| ensures p[out[i]] >= p[out[j]] {
      assert out[j] == r[j - 1];
      if i > 0 { assert out[i] == r[i - 1]; }
    }
  }

  lemma {:induction false} InsertDescending(p: Dist, y: string, l: seq<string>)
    requires y in p && Covers(l, p) && Descending(p, l)
    ensures Descending(p, InsertDesc(p, y, l))
  {
    if l != [] && p[l[0]] >= p[y] {
      var t := l[1..];
      assert Descending(p, t) by {
        forall i, j | 0 <= i < j < |t| ensures p[t[i]] >= p[t[j]] {
          assert t[i] == l[i + 1] && t[j] == l[j + 1];
        }
      }
      InsertDescending(p, y, t);
      InsertMembers(p, y, t);
      forall z | z in InsertDesc(p, y, t) ensures p[z] <= p[l[0]] {
        if z != y {
          var m :| 0 <= m < |t| && t[m] == z;
          assert l[m + 1] == z;
        }
      }
      DescendingCons(p, l[0], InsertDesc(p, y, t));
    } else if l != [] {
      forall z | z in l ensures p[z] <= p[y] {
        var m :| 0 <= m < |l| && l[m] == z;
        assert p[l[m]] <= p[l[0]];
      }
      DescendingCons(p, y, l);
    }
  }

  lemma {:induction false} SortDescending(p: Dist, s: seq<string>)
    requires Covers(s, p)
    ensures Descending(p, SortDesc(p, s))
  {
    if s != [] {
      SortDescending(p, s[..|s| - 1]);
      InsertDescending(p, s[|s| - 1], SortDesc(p, s[..|s| - 1]));
    }
  }

  lemma DistinctCons(s: seq<string>)
    requires s != []
    ensures Distinct(s) <==> s[0] !in s[1..] && Distinct(s[1..])
  {
    var t := s[1..];
    if Distinct(s) {
      forall k | 0 <= k < |t| ensures t[k] != s[0] {
        assert t[k] == s[k + 1];
      }
      forall i, j | 0 <= i < j < |t| ensures t[i] != t[j] {
        assert t[i] == s[i + 1] && t[j] == s[j + 1];
      }
    }
    if s[0] !in t && Distinct(t) {
      forall i, j | 0 <= i < j < |s| ensures s[i] != s[j] {
        assert s[j] == t[j - 1];
        if i > 0 { assert s[i] == t[i - 1]; }
      }
    }
  }

  /** A sequence is duplicate-free exactly when no element occurs twice in its multiset. */
  lemma {:induction false} DistinctIffMultiset(s: seq<string>)
    ensures Distinct(s) <==> forall x :: multiset(s)[x] <= 1
  {
    if s != [] {
      var t := s[1..];
      DistinctIffMultiset(t);
      DistinctCons(s);
      assert s == [s[0]] + t;
      assert multiset(s) == multiset{s[0]} + multiset(t);
      if forall x :: multiset(s)[x] <= 1 {
        forall x ensures multiset(t)[x] <= 1 {
          assert multiset(s)[x] == multiset(t)[x] + (if x == s[0] then 1 else 0);
        }
        assert multiset(t)[s[0]] == 0;
      }
      if Distinct(s) {
        assert multiset(t)[s[0]] == 0;
        forall x ensures multiset(s)[x] <= 1 {
          assert multiset(s)[x] == multiset(t)[x] + (if x == s[0] then 1 else 0);
        }
      }
    }
  }

  lemma SortDistinct(p: Dist, s: seq<string>)
    requires Covers(s, p) && Distinct(s)
    ensures Distinct(SortDesc(p, s))
  {
    DistinctIffMultiset(s);
    DistinctIffMultiset(SortDesc(p, s));
  }

  lemma {:induction false} CountAtLeastNone(p: Dist, l: seq<string>, v: real)
    requires Covers(l, p) && forall k :: 0 <= k < |l| ==> p[l[k]] < v
    ensures CountAtLeast(p, l, v) == 0
  {
    if l != [] {
      assert forall k :: 0 <= k < |l[1..]| ==> l[1..][k] == l[k + 1];
      CountAtLeastNone(p, l[1..], v);
    }
  }

  /** Where the stable insertion puts the new element: after every element with a `prob` at
      least its own. */
  lemma {:induction false} IndexInsertNew(p: Dist, y: string, l: seq<string>)
    requires y in p && Covers(l, p) && Descending(p, l) && y !in l
    ensures y in InsertDesc(p, y, l)
    ensures IndexOf(InsertDesc(p, y, l), y) == CountAtLeast(p, l, p[y])
  {
    var r := InsertDesc(p, y, l);
    assert y in multiset(r);
    if l != [] {
      if p[l[0]] >= p[y] {
        assert l[0] != y;
        assert Descending(p, l[1..]) by {
          assert forall k :: 0 <= k < |l[1..]| ==> l[1..][k] == l[k + 1];
        }
        assert y !in l[1..];
        IndexInsertNew(p, y, l[1..]);
        assert r[1..] == InsertDesc(p, y, l[1..]);
      } else {
        CountAtLeastNone(p, l, p[y]);
      }
    }
  }

  /** The stable insertion shifts an old element by one exactly when the new one has a
      strictly greater `prob`. */
  lemma {:induction false} IndexInsertOld(p: Dist, y: string, l: seq<string>, x: string)
    requires y in p && Covers(l, p) && Descending(p, l) && x in l && x != y
    ensures x in InsertDesc(p, y, l)
    ensures IndexOf(InsertDesc(p, y, l), x) == IndexOf(l, x) + (if p[y] > p[x] then 1 else 0)
  {
    assert x in InsertDesc(p, y, l) by {
      assert x in multiset(InsertDesc(p, y, l));
    }
    if l[0] != x {
      if p[l[0]] >= p[y] {
        DescendingTail(p, l);
        IndexInsertOld(p, y, l[1..], x);
        IndexOfCons(l[0], InsertDesc(p, y, l[1..]), x);
      } else {
        assert p[l[IndexOf(l, x)]] <= p[l[0]];
        IndexOfCons(y, l, x);
      }
    }
  }

  lemma DescendingTail(p: Dist, l: seq<string>)
    requires l != [] && Covers(l, p) && Descending(p, l)
    ensures Covers(l[1..], p) && Descending(p, l[1..])
  {
    assert forall k :: 0 <= k < |l[1..]| ==> l[1..][k] == l[k + 1];
  }

  lemma IndexOfCons(a: string, r: seq<string>, x: string)
    requires x in r && a != x
    ensures x in [a] + r && IndexOf([a] + r, x) == 1 + IndexOf(r, x)
  {
    assert ([a] + r)[1..] == r;
  }

  lemma {:induction false} IndexOfPrefix(a: seq<string>, b: seq<string>, x: string)
    requires x in a
    ensures IndexOf(a + b, x) == IndexOf(a, x)
  {
    if a[0] != x {
      assert (a + b)[1..] == a[1..] + b;
      IndexOfPrefix(a[1..], b, x);
    }
  }

  lemma DistinctInit(s: seq<string>)
    requires Distinct(s) && s != []
    ensures Distinct(s[..|s| - 1]) && s[|s| - 1] !in s[..|s| - 1]
  {
    var init := s[..|s| - 1];
    forall i, j | 0 <= i < j < |init| ensures init[i] != init[j] {
      assert init[i] == s[i] && init[j] == s[j];
    }
    forall k | 0 <= k < |init| ensures init[k] != s[|s| - 1] { assert init[k] == s[k]; }
  }

  lemma {:induction false} IndexOfLast(a: seq<string>, y: string)
    requires y !in a
    ensures IndexOf(a + [y], y) == |a|
  {
    if a != [] {
      assert (a + [y])[1..] == a[1..] + [y];
      IndexOfLast(a[1..], y);
    }
  }

  /** The last-inserted node lands after every earlier node of at least its `prob`. */
  lemma SortPositionLast(p: Dist, s: seq<string>)
    requires Covers(s, p) && Distinct(s) && s != []
    ensures s[|s| - 1] in SortDesc(p, s)
    ensures IndexOf(SortDesc(p, s), s[|s| - 1]) == Position(p, s, s[|s| - 1])
  {
    var n := |s| - 1;
    var init, y := s[..n], s[n];
    assert s == init + [y];
    DistinctInit(s);
    var l := SortDesc(p, init);
    SortDescending(p, init);
    assert y !in multiset(l);
    IndexInsertNew(p, y, l);
    SortCount(p, init, p[y]);
    AtLeastSplits(p, init, p[y]);
    CountsSnoc(p, init, y, p[y]);
    IndexOfLast(init, y);
  }

  /** Appending a node moves an earlier one back exactly when the new one has a strictly
      greater `prob`. */
  lemma PositionSnoc(p: Dist, init: seq<string>, y: string, x: string)
    requires Covers(init, p) && y in p && x in init
    ensures Covers(init + [y], p) && x in init + [y]
    ensures Position(p, init + [y], x) == Position(p, init, x) + (if p[y] > p[x] then 1 else 0)
  {
    var s := init + [y];
    CountsSnoc(p, init, y, p[x]);
    IndexOfPrefix(init, [y], x);
    var i := IndexOf(init, x);
    assert s[..i] == init[..i];
  }

  lemma SortIndexSnoc(p: Dist, init: seq<string>, y: string, x: string)
    requires Covers(init, p) && y in p && x in init && x != y
    ensures Covers(init + [y], p)
    ensures x in SortDesc(p, init) && x in SortDesc(p, init + [y])
    ensures IndexOf(SortDesc(p, init + [y]), x) ==
            IndexOf(SortDesc(p, init), x) + (if p[y] > p[x] then 1 else 0)
  {
    var s := init + [y];
    assert s[..|s| - 1] == init;
    var l := SortDesc(p, init);
    assert x in multiset(l);
    assert SortDesc(p, s) == InsertDesc(p, y, l);
    SortDescending(p, init);
    IndexInsertOld(p, y, l, x);
  }

  /** An earlier node moves back by one exactly when the last-inserted node has a strictly
      greater `prob`, so its sorted index stays its closed-form position. */
  lemma SortPositionEarlier(p: Dist, init: seq<string>, y: string, x: string)
    requires Covers(init, p) && y in p && x in init && x != y
    requires x in SortDesc(p, init) && IndexOf(SortDesc(p, init), x) == Position(p, init, x)
    ensures Covers(init + [y], p)
    ensures x in SortDesc(p, init + [y])
    ensures IndexOf(SortDesc(p, init + [y]), x) == Position(p, init + [y], x)
  {
    SortIndexSnoc(p, init, y, x);
    PositionSnoc(p, init, y, x);
  }

  /** The position of `x` in the stable descending sort is its closed-form `Position`. */
  lemma {:induction false} SortPosition(p: Dist, s: seq<string>, x: string)
    requires Covers(s, p) && Distinct(s) && x in s
    ensures x in SortDesc(p, s)
    ensures IndexOf(SortDesc(p, s), x) == Position(p, s, x)
  {
    var n := |s| - 1;
    if x == s[n] {
      SortPositionLast(p, s);
    } else {
      SplitLast(s);
      assert x in s[..n];
      DistinctInit(s);
      SortPosition(p, s[..n], x);
      SortPositionEarlier(p, s[..n], s[n], x);
    }
  }

  // ---------------------------------------------------------------------------------------
  // What get_rank promises

  /** `get_rank` returns `None` exactly when the secret string is not a node; otherwise its
      rank is one more than the number of nodes with a greater `prob` plus the number of
      earlier-inserted nodes with the same `prob`. */
  lemma RankIsPosition(order: seq<string>, p: Dist, secret: string)
    requires Covers(order, p) && Distinct(order)
    ensures GetRank(order, p, secret).None? <==> secret !in order
    ensures secret in order ==> GetRank(order, p, secret) == Some(Position(p, order, secret) + 1)
  {
    assert secret in order <==> secret in multiset(SortDesc(p, order));
    if secret in order { SortPosition(p, order, secret); }
  }

  /** The rank of a node is one more than its index in the sorted order. */
  lemma RankOfMember(order: seq<string>, p: Dist, x: string)
    requires Covers(order, p) && x in order
    ensures x in SortDesc(p, order)
    ensures GetRank(order, p, x) == Some(IndexOf(SortDesc(p, order), x) + 1)
  {
    var sorted := SortDesc(p, order);
    assert x in sorted by {
      assert multiset(sorted) == multiset(order);
      assert x in multiset(sorted);
    }
    assert GetRank(order, p, x) == if x in sorted then Some(IndexOf(sorted, x) + 1) else None;
  }

  /** Every node has a rank in 1..|V|. */
  lemma RankRange(order: seq<string>, p: Dist)
    requires Covers(order, p)
    ensures forall x :: x in order ==>
              GetRank(order, p, x).Some? && 1 <= GetRank(order, p, x).value <= |order|
  {
    forall x | x in order
      ensures GetRank(order, p, x).Some? && 1 <= GetRank(order, p, x).value <= |order|
    {
      RankOfMember(order, p, x);
    }
  }

  /** Distinct nodes have distinct ranks. */
  lemma RankInjective(order: seq<string>, p: Dist)
    requires Covers(order, p)
    ensures forall x, y :: x in order && y in order && x != y ==>
              GetRank(order, p, x) != GetRank(order, p, y)
  {
    forall x, y | x in order && y in order && x != y
      ensures GetRank(order, p, x) != GetRank(order, p, y)
    {
      RankOfMember(order, p, x);
      RankOfMember(order, p, y);
    }
  }

  /** The ranks taken by the nodes are exactly 1..|V|. */
  lemma RankImage(order: seq<string>, p: Dist)
    requires Covers(order, p) && Distinct(order)
    ensures (set x | x in order :: GetRank(order, p, x)) == (set r: nat | 1 <= r <= |order| :: Some(r))
  {
    var taken := set x | x in order :: GetRank(order, p, x);
    var ranks := set r: nat | 1 <= r <= |order| :: Some(r);
    forall e | e in taken ensures e in ranks {
      var x :| x in order && e == GetRank(order, p, x);
      RankOfMember(order, p, x);
    }
    forall e | e in ranks ensures e in taken {
      var r: nat :| 1 <= r <= |order| && e == Some(r);
      RankOnto(order, p, r);
    }
  }

  /** The ranks of the nodes are a bijection onto 1..|V|. */
  lemma RankBijection(order: seq<string>, p: Dist)
    requires Covers(order, p) && Distinct(order)
    ensures forall x :: x in order ==>
              GetRank(order, p, x).Some? && 1 <= GetRank(order, p, x).value <= |order|
    ensures forall x, y :: x in order && y in order && x != y ==>
              GetRank(order, p, x) != GetRank(order, p, y)
    ensures (set x | x in order :: GetRank(order, p, x)) == (set r: nat | 1 <= r <= |order| :: Some(r))
  {
    RankRange(order, p);
    RankInjective(order, p);
    RankImage(order, p);
  }

  /** Every rank in 1..|V| is taken by the node at that place in the sorted order. */
  lemma RankOnto(order: seq<string>, p: Dist, r: nat)
    requires Covers(order, p) && Distinct(order) && 1 <= r <= |order|
    ensures SortDesc(p, order)[r - 1] in order && GetRank(order, p, SortDesc(p, order)[r - 1]) == Some(r)
  {
    var sorted := SortDesc(p, order);
    SortDistinct(p, order);
    var x := sorted[r - 1];
    assert x in order by {
      assert multiset(sorted) == multiset(order);
      assert x in multiset(sorted);
    }
    RankOfMember(order, p, x);
    var i := IndexOf(sorted, x);
    assert sorted[i] == sorted[r - 1];
    assert GetRank(order, p, x) == Some(r);
  }

  /** A node with a strictly greater `prob` gets a strictly smaller rank. */
  lemma RankHigherProb(order: seq<string>, p: Dist, a: string, b: string)
    requires Covers(order, p) && Distinct(order) && a in order && b in order
    requires p[a] > p[b]
    ensures GetRank(order, p, a).Some? && GetRank(order, p, b).Some?
    ensures GetRank(order, p, a).value < GetRank(order, p, b).value
  {
    var sorted := SortDesc(p, order);
    assert a in multiset(sorted) && b in multiset(sorted);
    SortDescending(p, order);
    var i, j := IndexOf(sorted, a), IndexOf(sorted, b);
    assert i != j;
  }

  lemma {:induction false} CountEqualAppend(p: Dist, a: seq<string>, b: seq<string>, v: real)
    requires Covers(a, p) && Covers(b, p)
    ensures Covers(a + b, p)
    ensures CountEqual(p, a + b, v) == CountEqual(p, a, v) + CountEqual(p, b, v)
  {
    if a == [] {
      assert a + b == b;
    } else {
      assert (a + b)[1..] == a[1..] + b;
      CountEqualAppend(p, a[1..], b, v);
    }
  }

  /** Among nodes of equal `prob`, the one inserted earlier gets the smaller rank. */
  lemma RankTieInsertionOrder(order: seq<string>, p: Dist, a: string, b: string)
    requires Covers(order, p) && Distinct(order) && a in order && b in order
    requires p[a] == p[b] && IndexOf(order, a) < IndexOf(order, b)
    ensures GetRank(order, p, a).Some? && GetRank(order, p, b).Some?
    ensures GetRank(order, p, a).value < GetRank(order, p, b).value
  {
    CountEqualPrefixLess(p, order, IndexOf(order, a), IndexOf(order, b), p[a]);
    RankIsPosition(order, p, a);
    RankIsPosition(order, p, b);
  }

  /** A longer prefix that takes in one more element of `prob` `v` counts strictly more of them. */
  lemma CountEqualPrefixLess(p: Dist, s: seq<string>, i: nat, j: nat, v: real)
    requires Covers(s, p) && i < j <= |s| && p[s[i]] == v
    ensures Covers(s[..i], p) && Covers(s[..j], p)
    ensures CountEqual(p, s[..i], v) < CountEqual(p, s[..j], v)
  {
    assert s[..j] == s[..i] + s[i..j];
    CountEqualAppend(p, s[..i], s[i..j], v);
    assert s[i..j][0] == s[i];
  }
}
