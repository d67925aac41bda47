/** Directed graphs over the vertices 0 .. n-1, stored as adjacency lists
    (`vector<vector<int>> adj` in the programs), together with paths,
    reachability and cycles, which the algorithms' contracts are stated in. */
module Graph {
  import opened Seqs

  type Adj = seq<seq<int>>

  /** Every listed neighbour is a vertex of the graph. */
  predicate WellFormed(adj: Adj) {
    forall u, j :: 0 <= u < |adj| && 0 <= j < |adj[u]| ==> 0 <= adj[u][j] < |adj|
  }

  predicate IsVertex(adj: Adj, v: int) {
    0 <= v < |adj|
  }

  predicate Edge(adj: Adj, u: int, v: int) {
    0 <= u < |adj| && v in adj[u]
  }

  /** `Graph(V)`: V vertices, no edges. */
  function Empty(n: nat): (adj: Adj)
    ensures |adj| == n && WellFormed(adj)
    ensures forall u, v :: !Edge(adj, u, v)
  {
    seq(n, _ => [])
  }

  /** Number of edges u -> v in the multigraph. */
  function Multiplicity(adj: Adj, u: int, v: int): nat {
    if 0 <= u < |adj| then multiset(adj[u])[v] else 0
  }

  /** `addEdge(u, v)` of the directed graphs: append v to u's list. */
  function AddEdge(adj: Adj, u: int, v: int): (r: Adj)
    requires IsVertex(adj, u) && IsVertex(adj, v)
    requires WellFormed(adj)
    ensures WellFormed(r) && |r| == |adj|
    ensures forall a, b ::
              Multiplicity(r, a, b) == Multiplicity(adj, a, b) + (if a == u && b == v then 1 else 0)
  {
    adj[u := adj[u] + [v]]
  }

  /** `addEdge(u, v)` of the undirected graphs: each end lists the other. */
  function AddUndirectedEdge(adj: Adj, u: int, v: int): (r: Adj)
    requires IsVertex(adj, u) && IsVertex(adj, v)
    requires WellFormed(adj)
    ensures WellFormed(r) && |r| == |adj|
    ensures Symmetric(adj) ==> Symmetric(r)
    ensures Edge(r, u, v) && Edge(r, v, u)
    ensures forall a, b ::
              Multiplicity(r, a, b) == Multiplicity(adj, a, b)
                                       + (if a == u && b == v then 1 else 0)
                                       + (if a == v && b == u then 1 else 0)
  {
    var r1 := AddEdge(adj, u, v);
    AddEdge(r1, v, u)
  }

  /** Undirected: each edge is listed at both ends, as often at one as at the other. */
  ghost predicate Symmetric(adj: Adj) {
    forall a, b :: Multiplicity(adj, a, b) == Multiplicity(adj, b, a)
  }

  // ---------------------------------------------------------------------
  // Paths and reachability

  /** A non-empty vertex sequence following edges of the graph. */
  ghost predicate IsPath(adj: Adj, p: seq<int>) {
    && |p| >= 1
    && (forall i :: 0 <= i < |p| ==> IsVertex(adj, p[i]))
    && (forall i :: 0 <= i < |p| - 1 ==> Edge(adj, p[i], p[i + 1]))
  }

  /** b can be reached from a along zero or more edges. */
  ghost predicate Reach(adj: Adj, a: int, b: int) {
    exists p :: IsPath(adj, p) && p[0] == a && p[|p| - 1] == b
  }

  /** An edge is listed at least once. */
  lemma EdgeMultiplicity(adj: Adj, u: int, v: int)
    ensures Edge(adj, u, v) <==> Multiplicity(adj, u, v) > 0
  {
    if 0 <= u < |adj| {
      assert v in adj[u] <==> v in multiset(adj[u]);
    }
  }

  /** Some edge u -> v closes a path back from v to u. */
  ghost predicate HasCycle(adj: Adj) {
    exists u, v :: Edge(adj, u, v) && Reach(adj, v, u)
  }

  /** Only vertices are connected. */
  lemma ReachVertex(adj: Adj, a: int, b: int)
    requires Reach(adj, a, b)
    ensures IsVertex(adj, a) && IsVertex(adj, b)
  {
    var p :| IsPath(adj, p) && p[0] == a && p[|p| - 1] == b;
    assert IsVertex(adj, p[|p| - 1]);
  }

  lemma ReachRefl(adj: Adj, a: int)
    requires IsVertex(adj, a)
    ensures Reach(adj, a, a)
  {
    assert IsPath(adj, [a]);
  }

  lemma ReachExtend(adj: Adj, a: int, b: int, c: int)
    requires WellFormed(adj)
    requires Reach(adj, a, b) && Edge(adj, b, c)
    ensures Reach(adj, a, c)
  {
    var p :| IsPath(adj, p) && p[0] == a && p[|p| - 1] == b;
    var q := p + [c];
    assert q[|q| - 2] == b;
    assert IsPath(adj, q);
  }

  lemma ReachPrepend(adj: Adj, a: int, b: int, c: int)
    requires WellFormed(adj)
    requires Edge(adj, a, b) && Reach(adj, b, c)
    ensures Reach(adj, a, c)
  {
    var p :| IsPath(adj, p) && p[0] == b && p[|p| - 1] == c;
    var q := [a] + p;
    assert IsPath(adj, q);
  }

  lemma ReachTrans(adj: Adj, a: int, b: int, c: int)
    requires WellFormed(adj)
    requires Reach(adj, a, b) && Reach(adj, b, c)
    ensures Reach(adj, a, c)
  {
    var p :| IsPath(adj, p) && p[0] == a && p[|p| - 1] == b;
    var q :| IsPath(adj, q) && q[0] == b && q[|q| - 1] == c;
    var r := p + q[1..];
    assert IsPath(adj, r);
  }

  /** Any two positions of a path, in order, are connected. */
  lemma PathReach(adj: Adj, p: seq<int>, i: int, j: int)
    requires IsPath(adj, p) && 0 <= i <= j < |p|
    ensures Reach(adj, p[i], p[j])
  {
    assert IsPath(adj, p[i..j + 1]);
  }

  /** a and b lie in one strongly connected component. */
  ghost predicate Mutual(adj: Adj, a: int, b: int) {
    Reach(adj, a, b) && Reach(adj, b, a)
  }

  lemma MutualTrans(adj: Adj, a: int, b: int, c: int)
    requires WellFormed(adj) && Mutual(adj, a, b) && Mutual(adj, b, c)
    ensures Mutual(adj, a, c)
  {
    ReachTrans(adj, a, b, c);
    ReachTrans(adj, c, b, a);
  }

  /** Two different mutually reachable vertices close a cycle. */
  lemma MutualCycle(adj: Adj, a: int, b: int)
    requires WellFormed(adj) && Mutual(adj, a, b) && a != b
    ensures HasCycle(adj)
  {
    var p :| IsPath(adj, p) && p[0] == a && p[|p| - 1] == b;
    PathReach(adj, p, 1, |p| - 1);
    ReachTrans(adj, p[1], b, a);
    assert Edge(adj, a, p[1]);
  }

  /** The position of x in s. */
  function IndexOf(s: seq<int>, x: int): (i: nat)
    requires x in s
    ensures i < |s| && s[i] == x
    ensures forall k :: 0 <= k < i ==> s[k] != x
  {
    if s[0] == x then 0 else 1 + IndexOf(s[1..], x)
  }

  /** A topological order: every vertex once, and every edge pointing forward. */
  ghost predicate IsTopologicalOrder(adj: Adj, order: seq<int>) {
    && |order| == |adj| && Distinct(order)
    && (forall i :: 0 <= i < |order| ==> IsVertex(adj, order[i]))
    && (forall i, j :: 0 <= i < |order| && 0 <= j < |order| && Edge(adj, order[i], order[j]) ==> i < j)
  }

  lemma {:induction false} PathForward(adj: Adj, order: seq<int>, p: seq<int>)
    requires IsTopologicalOrder(adj, order) && IsPath(adj, p)
    ensures p[0] in order && p[|p| - 1] in order
    ensures IndexOf(order, p[0]) <= IndexOf(order, p[|p| - 1])
    decreases |p|
  {
    DistinctRangeLength(order, |adj|);
    if |p| > 1 {
      var q := p[..|p| - 1];
      assert IsPath(adj, q);
      PathForward(adj, order, q);
      assert Edge(adj, q[|q| - 1], p[|p| - 1]);
    }
  }

  /** Only an acyclic graph has a topological order. */
  lemma TopologicalNoCycle(adj: Adj, order: seq<int>)
    requires IsTopologicalOrder(adj, order)
    ensures !HasCycle(adj)
  {
    if HasCycle(adj) {
      var u, v :| Edge(adj, u, v) && Reach(adj, v, u);
      var p :| IsPath(adj, p) && p[0] == v && p[|p| - 1] == u;
      PathForward(adj, order, p);
    }
  }
}
