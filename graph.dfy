/** The graph of observed bit strings built at the top of `deconv`
    (`scripts/.ipynb_checkpoints/algorithm-checkpoint.py`), and the bounded breadth-first
    neighbourhood query `get_n_away_neighbors`. The networkx graph is modelled as the node
    sequence in insertion order plus an adjacency map. */
module HypercubeGraph {
  import opened Wrappers
  import opened Hamming

  /** `counts`: a Python dict from measured string to its count, in insertion order. */
  type Counts = seq<(string, real)>

  /** Nodes in insertion order, and for each node the set of its neighbours. */
  datatype Graph = Graph(nodes: seq<string>, adj: map<string, set<string>>)

  datatype GraphError = NodeNotFound(node: string)

  predicate Distinct(s: seq<string>) {
    forall i, j :: 0 <= i < j < |s| ==> s[i] != s[j]
  }

  function KeysOf(counts: Counts): seq<string> {
    seq(|counts|, i requires 0 <= i < |counts| => counts[i].0)
  }

  /** Dict keys are unique. */
  predicate KeysDistinct(counts: Counts) {
    Distinct(KeysOf(counts))
  }

  function SetOf(s: seq<string>): set<string> {
    set v | v in s
  }

  /** A non-empty sequence is its front followed by its last element. */
  lemma SplitLast(s: seq<string>)
    requires s != []
    ensures s == s[..|s| - 1] + [s[|s| - 1]]
  {
  }

  /** The strings of one more element of a sequence. */
  lemma SetOfSnoc(s: seq<string>, i: nat)
    requires i < |s|
    ensures SetOf(s[..i + 1]) == SetOf(s[..i]) + {s[i]}
  {
    assert s[..i + 1] == s[..i] + [s[i]];
  }

  function NodeSet(g: Graph): set<string> {
    SetOf(g.nodes)
  }

  predicate WellFormed(g: Graph) {
    && Distinct(g.nodes)
    && g.adj.Keys == NodeSet(g)
    && forall v :: v in g.adj ==> g.adj[v] <= g.adj.Keys
  }

  /** Reference definition of the built graph: the keys of `counts` in order, and an edge
      between two keys exactly when their Hamming distance is 1. */
  function GraphOf(counts: Counts): Graph {
    var ks := KeysOf(counts);
    Graph(ks, DistanceOneAdjacency(SetOf(ks)))
  }

  /** The `prob` attribute of every node: its count (the division by shots is not applied). */
  function ProbOf(counts: Counts): map<string, real> {
    if counts == [] then map[]
    else ProbOf(counts[..|counts| - 1])[counts[|counts| - 1].0 := counts[|counts| - 1].1]
  }

  lemma {:induction false} ProbOfDomain(counts: Counts)
    requires KeysDistinct(counts)
    ensures ProbOf(counts).Keys == SetOf(KeysOf(counts))
    ensures forall i :: 0 <= i < |counts| ==>
              counts[i].0 in ProbOf(counts) && ProbOf(counts)[counts[i].0] == counts[i].1
  {
    if counts != [] {
      var n := |counts| - 1;
      var init := counts[..n];
      assert KeysOf(counts) == KeysOf(init) + [counts[n].0];
      assert KeysDistinct(init) by {
        forall i, j | 0 <= i < j < |init| ensures KeysOf(init)[i] != KeysOf(init)[j] {
          assert KeysOf(counts)[i] != KeysOf(counts)[j];
        }
      }
      ProbOfDomain(init);
      forall i | 0 <= i < n ensures counts[i].0 != counts[n].0 {
        assert KeysOf(counts)[i] != KeysOf(counts)[n];
      }
    }
  }

  /** The built graph has exactly the keys of `counts` as nodes, each with its count as `prob`. */
  lemma GraphOfNodes(counts: Counts)
    requires KeysDistinct(counts)
    ensures WellFormed(GraphOf(counts))
    ensures |GraphOf(counts).nodes| == |counts|
    ensures forall i :: 0 <= i < |counts| ==> GraphOf(counts).nodes[i] == counts[i].0
    ensures forall k :: k in NodeSet(GraphOf(counts)) <==> exists i :: 0 <= i < |counts| && counts[i].0 == k
    ensures ProbOf(counts).Keys == NodeSet(GraphOf(counts))
    ensures forall i :: 0 <= i < |counts| ==> ProbOf(counts)[counts[i].0] == counts[i].1
  {
    ProbOfDomain(counts);
    GraphOfWellFormed(counts);
    KeysOfMembers(counts);
  }

  lemma GraphOfWellFormed(counts: Counts)
    requires KeysDistinct(counts)
    ensures WellFormed(GraphOf(counts))
  {
    var vs := SetOf(KeysOf(counts));
    var adj := DistanceOneAdjacency(vs);
    assert adj.Keys == vs;
    forall v | v in adj ensures adj[v] <= vs { }
  }

  /** A string is a key exactly when some entry of `counts` has it. */
  lemma KeysOfMembers(counts: Counts)
    ensures forall k :: k in SetOf(KeysOf(counts)) <==> exists i :: 0 <= i < |counts| && counts[i].0 == k
  {
    var ks := KeysOf(counts);
    forall k | k in SetOf(ks) ensures exists i :: 0 <= i < |counts| && counts[i].0 == k {
      var i :| 0 <= i < |ks| && ks[i] == k;
      assert counts[i].0 == k;
    }
    forall k | exists i :: 0 <= i < |counts| && counts[i].0 == k ensures k in SetOf(ks) {
      var i :| 0 <= i < |counts| && counts[i].0 == k;
      assert ks[i] == k;
    }
  }

  /** The edge relation is symmetric, has no self-loops, and is exactly Hamming distance 1. */
  lemma GraphOfEdges(counts: Counts, a: string, b: string)
    requires a in GraphOf(counts).adj && b in GraphOf(counts).adj
    ensures b in GraphOf(counts).adj[a] <==> HammingDist(a, b) == 1
    ensures b in GraphOf(counts).adj[a] <==> a in GraphOf(counts).adj[b]
    ensures a !in GraphOf(counts).adj[a]
  {
    DistSymmetric(a, b);
    DistSelf(a);
  }

  /** Which pairs have been joined after the sources in `done` were handled completely and the
      source `a` was paired with the targets in `t`. */
  predicate Linked(done: set<string>, a: string, t: set<string>, x: string, y: string) {
    x in done || y in done || (x == a && y in t) || (y == a && x in t)
  }

  /** The adjacency map holds, for each node, the nodes at distance 1 that `Linked` admits. */
  predicate AdjacencySoFar(adj: map<string, set<string>>, vs: set<string>,
                           done: set<string>, a: string, t: set<string>)
  {
    && adj.Keys == vs
    && (forall x :: x in adj ==> adj[x] <= vs)
    && forall x, y :: x in adj && y in vs ==>
         (y in adj[x] <==> HammingDist(x, y) == 1 && Linked(done, a, t, x, y))
  }

  /** Pairing the source `a` with one more target `b` keeps the adjacency map up to date:
      `add_edge` joins them in both directions exactly when they are at distance 1. */
  lemma PairStep(adj: map<string, set<string>>, vs: set<string>, done: set<string>, a: string,
                 t: set<string>, b: string)
    requires a in vs && b in vs && AdjacencySoFar(adj, vs, done, a, t)
    ensures var adj' := if HammingDist(a, b) == 1 then adj[a := adj[a] + {b}][b := adj[b] + {a}] else adj;
            AdjacencySoFar(adj', vs, done, a, t + {b})
  {
    DistSymmetric(a, b);
    DistSelf(a);
    var adj' := if HammingDist(a, b) == 1 then adj[a := adj[a] + {b}][b := adj[b] + {a}] else adj;
    forall x, y | x in adj' && y in vs
      ensures y in adj'[x] <==> HammingDist(x, y) == 1 && Linked(done, a, t + {b}, x, y)
    {
      assert Linked(done, a, t + {b}, x, y) <==>
             Linked(done, a, t, x, y) || (x == a && y == b) || (y == a && x == b);
      if HammingDist(a, b) == 1 {
        if x == b {
          assert adj'[x] == adj[b] + {a};
        } else if x == a {
          assert adj'[x] == adj[a] + {b};
        } else {
          assert adj'[x] == adj[x];
        }
      }
    }
  }

  /** The inner edge loop: `for other_result_string in G.nodes()` for one `result_string`. */
  method AddEdgesFrom(nodes: seq<string>, a: string, adj0: map<string, set<string>>,
                      ghost done: set<string>)
    returns (adj: map<string, set<string>>)
    requires a in nodes
    requires AdjacencySoFar(adj0, SetOf(nodes), done, a, {})
    ensures AdjacencySoFar(adj, SetOf(nodes), done + {a}, a, {})
  {
    ghost var vs := SetOf(nodes);
    adj := adj0;
    for j := 0 to |nodes|
      invariant AdjacencySoFar(adj, vs, done, a, SetOf(nodes[..j]))
    {
      var b := nodes[j];
      ghost var t := SetOf(nodes[..j]);
      assert SetOf(nodes[..j + 1]) == t + {b} by {
        assert nodes[..j + 1] == nodes[..j] + [b];
      }
      PairStep(adj, vs, done, a, t, b);
      if HammingDist(a, b) == 1 {
        adj := adj[a := adj[a] + {b}];
        adj := adj[b := adj[b] + {a}];
      }
    }
    assert nodes[..|nodes|] == nodes;
    assert AdjacencySoFar(adj, vs, done, a, vs);
  }

  /** Distance-1 adjacency over a node set. */
  function DistanceOneAdjacency(vs: set<string>): map<string, set<string>> {
    map a | a in vs :: set b | b in vs && HammingDist(a, b) == 1
  }

  lemma AdjacencyDone(adj: map<string, set<string>>, vs: set<string>)
    requires AdjacencySoFar(adj, vs, vs, "", {})
    ensures adj == DistanceOneAdjacency(vs)
  {
    var m := DistanceOneAdjacency(vs);
    forall x | x in vs ensures adj[x] == m[x] {
      assert forall y :: y in adj[x] <==> y in m[x];
    }
  }

  lemma AdjacencyStart(adj: map<string, set<string>>, vs: set<string>)
    requires adj == map k | k in vs :: {}
    ensures AdjacencySoFar(adj, vs, {}, "", {})
  {
  }

  /** `for key, value in counts.items(): G.add_node(key, prob=value)`. */
  method AddNodes(counts: Counts) returns (nodes: seq<string>, adj: map<string, set<string>>,
                                           prob: map<string, real>)
    ensures nodes == KeysOf(counts)
    ensures adj == map k | k in SetOf(nodes) :: {}
    ensures prob == ProbOf(counts)
  {
    nodes, adj, prob := [], map[], map[];
    for i := 0 to |counts|
      invariant nodes == KeysOf(counts)[..i]
      invariant adj == map k | k in SetOf(nodes) :: {}
      invariant prob == ProbOf(counts[..i])
    {
      var (key, value) := counts[i];
      assert KeysOf(counts)[..i + 1] == KeysOf(counts)[..i] + [key];
      assert SetOf(nodes + [key]) == SetOf(nodes) + {key};
      nodes := nodes + [key];
      adj := adj[key := {}];
      assert counts[..i + 1][..i] == counts[..i];
      prob := prob[key := value];
    }
    assert counts[..|counts|] == counts;
  }

  /** The node and edge loops at the top of `deconv`: `add_node` for every key, then
      `add_edge` for every ordered pair of nodes at Hamming distance 1. */
  method BuildGraph(counts: Counts) returns (g: Graph, prob: map<string, real>)
    ensures g == GraphOf(counts)
    ensures prob == ProbOf(counts)
  {
    var nodes, adj;
    nodes, adj, prob := AddNodes(counts);
    ghost var vs := SetOf(nodes);
    AdjacencyStart(adj, vs);
    assert SetOf(nodes[..0]) == {};
    for i := 0 to |nodes|
      invariant AdjacencySoFar(adj, vs, SetOf(nodes[..i]), "", {})
    {
      ghost var done := SetOf(nodes[..i]);
      assert SetOf(nodes[..i + 1]) == done + {nodes[i]} by {
        assert nodes[..i + 1] == nodes[..i] + [nodes[i]];
      }
      adj := AddEdgesFrom(nodes, nodes[i], adj, done);
    }
    assert nodes[..|nodes|] == nodes;
    AdjacencyDone(adj, vs);
    g := Graph(nodes, adj);
  }

  // ---------------------------------------------------------------------------------------
  // Bounded neighbourhood

  /** The nodes one edge away from some node of `s`. */
  function Adjacent(g: Graph, s: set<string>): set<string> {
    set v, w | v in s && v in g.adj && w in g.adj[v] :: w
  }

  /** Nodes within `k` hops of `src`, level by level. */
  function Reach(g: Graph, src: string, k: nat): set<string> {
    if k == 0 then {src} else var r := Reach(g, src, k - 1); r + Adjacent(g, r)
  }

  lemma AdjacentMember(g: Graph, s: set<string>, w: string)
    ensures w in Adjacent(g, s) <==> exists v :: v in s && v in g.adj && w in g.adj[v]
  {
  }

  lemma AdjacentUnion(g: Graph, a: set<string>, b: set<string>)
    ensures Adjacent(g, a + b) == Adjacent(g, a) + Adjacent(g, b)
  {
  }

  lemma AdjacentSubset(g: Graph, a: set<string>, b: set<string>)
    requires a <= b
    ensures Adjacent(g, a) <= Adjacent(g, b)
  {
  }

  /** Once a level adds nothing new, every later level is the same. */
  lemma {:induction false} ReachStable(g: Graph, src: string, k: nat, k': nat)
    requires Adjacent(g, Reach(g, src, k)) <= Reach(g, src, k)
    requires k <= k'
    ensures Reach(g, src, k') == Reach(g, src, k)
  {
    if k' > k { ReachStable(g, src, k, k' - 1); }
  }

  /** The neighbourhood always contains the source and grows with the cutoff. */
  lemma {:induction false} ReachMonotone(g: Graph, src: string, k: nat, k': nat)
    requires k <= k'
    ensures src in Reach(g, src, k)
    ensures Reach(g, src, k) <= Reach(g, src, k')
  {
    if k' > k { ReachMonotone(g, src, k, k' - 1); }
    else if k > 0 { ReachMonotone(g, src, k - 1, k - 1); }
  }

  /** The neighbourhood of a graph node contains only graph nodes. */
  lemma {:induction false} ReachInGraph(g: Graph, src: string, k: nat)
    requires WellFormed(g) && src in g.adj
    ensures Reach(g, src, k) <= g.adj.Keys
  {
    if k > 0 { ReachInGraph(g, src, k - 1); }
  }

  /** A walk along edges of the graph, through graph nodes. */
  ghost predicate IsWalk(g: Graph, p: seq<string>) {
    && |p| >= 1
    && (forall i :: 0 <= i < |p| ==> p[i] in g.adj)
    && forall i, j :: 0 <= i < j < |p| && j == i + 1 ==> p[j] in g.adj[p[i]]
  }

  lemma WalkExtend(g: Graph, p: seq<string>, v: string)
    requires WellFormed(g) && IsWalk(g, p) && v in g.adj[p[|p| - 1]]
    ensures IsWalk(g, p + [v])
  {
    var q := p + [v];
    forall i | 0 <= i < |q| ensures q[i] in g.adj {
      if i < |p| { assert q[i] == p[i]; }
    }
    forall i, j | 0 <= i < j < |q| && j == i + 1 ensures q[j] in g.adj[q[i]] {
      if j < |p| { assert q[i] == p[i] && q[j] == p[j]; }
      else { assert q[i] == p[|p| - 1]; }
    }
  }

  lemma {:induction false} ReachHasWalk(g: Graph, src: string, k: nat, v: string)
    requires WellFormed(g) && src in g.adj && v in Reach(g, src, k)
    ensures exists p :: IsWalk(g, p) && p[0] == src && p[|p| - 1] == v && |p| <= k + 1
  {
    if k == 0 {
      assert IsWalk(g, [src]);
    } else if v in Reach(g, src, k - 1) {
      ReachHasWalk(g, src, k - 1, v);
    } else {
      AdjacentMember(g, Reach(g, src, k - 1), v);
      var u :| u in Reach(g, src, k - 1) && u in g.adj && v in g.adj[u];
      ReachHasWalk(g, src, k - 1, u);
      ExtendToWalk(g, src, u, v, k);
    }
  }

  lemma ExtendToWalk(g: Graph, src: string, u: string, v: string, k: nat)
    requires WellFormed(g) && u in g.adj && v in g.adj[u]
    requires exists p :: IsWalk(g, p) && p[0] == src && p[|p| - 1] == u && |p| <= k
    ensures exists q :: IsWalk(g, q) && q[0] == src && q[|q| - 1] == v && |q| <= k + 1
  {
    var p :| IsWalk(g, p) && p[0] == src && p[|p| - 1] == u && |p| <= k;
    WalkExtend(g, p, v);
    var q := p + [v];
    assert q[0] == src && q[|q| - 1] == v && |q| <= k + 1;
  }

  lemma {:induction false} WalkInReach(g: Graph, p: seq<string>)
    requires IsWalk(g, p)
    ensures p[|p| - 1] in Reach(g, p[0], |p| - 1)
  {
    if |p| > 1 {
      var q := p[..|p| - 1];
      assert IsWalk(g, q);
      WalkInReach(g, q);
      assert p[|p| - 1] in g.adj[q[|q| - 1]];
    }
  }

  /** The neighbourhood with cutoff `k` holds exactly the nodes reachable by a walk of at most
      `k` edges. */
  lemma ReachIffWalk(g: Graph, src: string, k: nat, v: string)
    requires WellFormed(g) && src in g.adj
    ensures v in Reach(g, src, k) <==>
            exists p :: IsWalk(g, p) && p[0] == src && p[|p| - 1] == v && |p| <= k + 1
  {
    if v in Reach(g, src, k) {
      ReachHasWalk(g, src, k, v);
    }
    if exists p :: IsWalk(g, p) && p[0] == src && p[|p| - 1] == v && |p| <= k + 1 {
      var p :| IsWalk(g, p) && p[0] == src && p[|p| - 1] == v && |p| <= k + 1;
      WalkInReach(g, p);
      ReachMonotone(g, src, |p| - 1, k);
    }
  }

  /** Every edge joins two strings at Hamming distance 1. */
  ghost predicate EdgesAtDistanceOne(g: Graph) {
    forall a, b :: a in g.adj && b in g.adj[a] ==> HammingDist(a, b) == 1
  }

  lemma GraphOfEdgesAtDistanceOne(counts: Counts)
    ensures EdgesAtDistanceOne(GraphOf(counts))
  {
  }

  /** All nodes are strings of length `n`. */
  ghost predicate UniformLength(g: Graph, n: nat) {
    forall w :: w in g.adj ==> |w| == n
  }

  lemma EdgeStepDistance(g: Graph, src: string, u: string, v: string)
    requires EdgesAtDistanceOne(g) && WellFormed(g)
    requires u in g.adj && v in g.adj[u] && UniformLength(g, |src|)
    ensures HammingDist(src, v) <= HammingDist(src, u) + 1
  {
    Triangle(src, u, v);
  }

  /** Over strings of one length, a node within `k` hops of the source is at Hamming distance
      at most `k` from it. */
  lemma {:induction false} ReachWithinDistance(g: Graph, src: string, k: nat)
    requires EdgesAtDistanceOne(g) && UniformLength(g, |src|)
    requires WellFormed(g) && src in g.adj
    ensures forall v :: v in Reach(g, src, k) ==> HammingDist(src, v) <= k
  {
    if k == 0 {
      DistSelf(src);
    } else {
      var r := Reach(g, src, k - 1);
      ReachWithinDistance(g, src, k - 1);
      forall v | v in Reach(g, src, k) ensures HammingDist(src, v) <= k {
        if v !in r {
          AdjacentMember(g, r, v);
          var u :| u in r && u in g.adj && v in g.adj[u];
          EdgeStepDistance(g, src, u, v);
        }
      }
    }
  }

  /** One level of the breadth-first search: the neighbours of the frontier not seen yet. */
  method Expand(g: Graph, frontier: set<string>, seen: set<string>) returns (next: set<string>)
    requires WellFormed(g) && frontier <= g.adj.Keys
    ensures next == Adjacent(g, frontier) - seen
  {
    next := {};
    var todo := frontier;
    while todo != {}
      invariant todo <= frontier
      invariant next == Adjacent(g, frontier - todo) - seen
      decreases todo
    {
      var v :| v in todo;
      AdjacentUnion(g, frontier - todo, {v});
      assert frontier - (todo - {v}) == (frontier - todo) + {v};
      next := next + (g.adj[v] - seen);
      todo := todo - {v};
    }
  }

  /** The state of the breadth-first search after `level` levels: the seen nodes are the
      neighbourhood with that cutoff, and only the frontier may have unseen neighbours. */
  predicate Searched(g: Graph, src: string, level: nat, seen: set<string>, frontier: set<string>) {
    && seen == Reach(g, src, level)
    && seen <= g.adj.Keys
    && frontier <= seen
    && Adjacent(g, seen - frontier) <= seen
  }

  /** Adding the new level to the seen nodes keeps the search state. */
  lemma LevelStep(g: Graph, src: string, level: nat, seen: set<string>, frontier: set<string>,
                  next: set<string>)
    requires WellFormed(g) && src in g.adj && Searched(g, src, level, seen, frontier)
    requires next == Adjacent(g, frontier) - seen
    ensures Searched(g, src, level + 1, seen + next, next)
  {
    assert Adjacent(g, seen) == Adjacent(g, seen - frontier) + Adjacent(g, frontier) by {
      AdjacentUnion(g, seen - frontier, frontier);
      assert seen == (seen - frontier) + frontier;
    }
    assert Reach(g, src, level + 1) == seen + Adjacent(g, seen);
    assert Adjacent(g, (seen + next) - next) <= Adjacent(g, seen) by {
      AdjacentSubset(g, (seen + next) - next, seen);
    }
    ReachInGraph(g, src, level + 1);
  }

  /** When the search stops, for want of a frontier or at the cutoff, it has found the
      neighbourhood with the cutoff. */
  lemma SearchDone(g: Graph, src: string, level: nat, seen: set<string>, frontier: set<string>,
                   cutoff: int)
    requires Searched(g, src, level, seen, frontier)
    requires level == 0 || level <= cutoff
    requires frontier == {} || level >= cutoff
    ensures seen == Reach(g, src, if cutoff < 0 then 0 else cutoff)
  {
    if frontier == {} {
      assert seen - frontier == seen;
      if level <= (if cutoff < 0 then 0 else cutoff) {
        ReachStable(g, src, level, if cutoff < 0 then 0 else cutoff);
      }
    }
  }

  /** `get_n_away_neighbors(G, node_name, n)`: raises when the node is missing, otherwise the
      nodes `single_source_shortest_path_length` finds within `cutoff` hops, by levels. */
  method NAwayNeighbors(g: Graph, src: string, cutoff: int) returns (r: Result<set<string>, GraphError>)
    requires WellFormed(g)
    ensures src !in g.adj ==> r == Err(NodeNotFound(src))
    ensures src in g.adj ==> r == Ok(Reach(g, src, if cutoff < 0 then 0 else cutoff))
  {
    if src !in g.adj {
      return Err(NodeNotFound(src));
    }
    var seen: set<string> := {src};
    var frontier: set<string> := {src};
    var level: nat := 0;
    assert seen - frontier == {};
    while frontier != {} && level < cutoff
      invariant level == 0 || level <= cutoff
      invariant Searched(g, src, level, seen, frontier)
      decreases cutoff - level
    {
      var next := Expand(g, frontier, seen);
      LevelStep(g, src, level, seen, frontier, next);
      seen, frontier, level := seen + next, next, level + 1;
    }
    SearchDone(g, src, level, seen, frontier, cutoff);
    return Ok(seen);
  }
}
