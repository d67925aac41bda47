/** The weighted undirected graphs of graph-02-SSSP-Dijkstra.cpp and
    graph-03-MST-Prims.cpp: `vector<vector<pair<int, int>>> adj`, where
    `adj[u]` lists `{v, weight}` for every edge at u, together with walks,
    their weights, and the `INT_MAX` sentinel both programs use for
    "infinity". */
module Weighted {

  /** One `{v, weight}` entry of an adjacency list. */
  datatype Arc = Arc(to: int, weight: int)

  type WAdj = seq<seq<Arc>>

  /** `numeric_limits<int>::max()`. */
  const IntMax: int := 0x7fff_ffff

  predicate WellFormed(adj: WAdj) {
    forall u, j :: 0 <= u < |adj| && 0 <= j < |adj[u]| ==> 0 <= adj[u][j].to < |adj|
  }

  predicate IsVertex(adj: WAdj, v: int) {
    0 <= v < |adj|
  }

  predicate NonNegative(adj: WAdj) {
    forall u, j :: 0 <= u < |adj| && 0 <= j < |adj[u]| ==> adj[u][j].weight >= 0
  }

  /** How often arc a is listed at u. */
  function Count(adj: WAdj, u: int, a: Arc): nat {
    if 0 <= u < |adj| then multiset(adj[u])[a] else 0
  }

  /** Each undirected edge is listed at both ends with the same weight, as
      often at one end as at the other. */
  ghost predicate Symmetric(adj: WAdj) {
    forall u, v, w :: Count(adj, u, Arc(v, w)) == Count(adj, v, Arc(u, w))
  }

  /** `Graph(V)`. */
  function Empty(n: nat): (adj: WAdj)
    ensures |adj| == n && WellFormed(adj) && Symmetric(adj)
    ensures forall u, a :: Count(adj, u, a) == 0
  {
    seq(n, _ => [])
  }

  /** `addEdge(u, v, weight)`: `{v, weight}` goes to u's list and
      `{u, weight}` to v's. */
  function AddEdge(adj: WAdj, u: int, v: int, w: int): (r: WAdj)
    requires WellFormed(adj) && IsVertex(adj, u) && IsVertex(adj, v)
    ensures WellFormed(r) && |r| == |adj|
    ensures forall x, a :: Count(r, x, a) == Count(adj, x, a) + Added(u, v, w, x, a)
  {
    var r1 := adj[u := adj[u] + [Arc(v, w)]];
    var r := r1[v := r1[v] + [Arc(u, w)]];
    AddEdgeCount(adj, u, v, w, r1, r);
    r
  }

  /** How many copies of a the edge {u, v} of weight w adds at x. */
  function Added(u: int, v: int, w: int, x: int, a: Arc): nat {
    (if x == u && a == Arc(v, w) then 1 else 0) + (if x == v && a == Arc(u, w) then 1 else 0)
  }

  lemma AddEdgeCount(adj: WAdj, u: int, v: int, w: int, r1: WAdj, r: WAdj)
    requires IsVertex(adj, u) && IsVertex(adj, v)
    requires r1 == adj[u := adj[u] + [Arc(v, w)]] && r == r1[v := r1[v] + [Arc(u, w)]]
    ensures forall x, a :: Count(r, x, a) == Count(adj, x, a) + Added(u, v, w, x, a)
  {
    forall x, a ensures Count(r, x, a) == Count(adj, x, a) + Added(u, v, w, x, a) {
      if 0 <= x < |adj| {
        if x == u && x == v {
          assert r[x] == adj[x] + [Arc(v, w)] + [Arc(u, w)];
        } else if x == u {
          assert r[x] == adj[x] + [Arc(v, w)];
        } else if x == v {
          assert r[x] == adj[x] + [Arc(u, w)];
        }
      }
    }
  }

  /** `addEdge` keeps the lists symmetric. */
  lemma AddEdgeSymmetric(adj: WAdj, u: int, v: int, w: int)
    requires WellFormed(adj) && IsVertex(adj, u) && IsVertex(adj, v) && Symmetric(adj)
    ensures Symmetric(AddEdge(adj, u, v, w))
  {
    var r := AddEdge(adj, u, v, w);
    forall x, y, c ensures Count(r, x, Arc(y, c)) == Count(r, y, Arc(x, c)) {
      assert Added(u, v, w, x, Arc(y, c)) == Added(u, v, w, y, Arc(x, c));
    }
  }

  // ---------------------------------------------------------------------
  // Walks

  /** The vertex a walk from s following arcs ends at. */
  function End(s: int, arcs: seq<Arc>): int {
    if |arcs| == 0 then s else arcs[|arcs| - 1].to
  }

  /** Starting at vertex s, each arc is listed at the vertex reached so far. */
  ghost predicate IsWalk(adj: WAdj, s: int, arcs: seq<Arc>)
    decreases |arcs|
  {
    if |arcs| == 0 then IsVertex(adj, s)
    else
      var init := arcs[..|arcs| - 1];
      IsWalk(adj, s, init) && IsVertex(adj, End(s, init)) && arcs[|arcs| - 1] in adj[End(s, init)]
  }

  /** The total weight of a walk. */
  function Weight(arcs: seq<Arc>): int {
    if |arcs| == 0 then 0 else Weight(arcs[..|arcs| - 1]) + arcs[|arcs| - 1].weight
  }

  /** v can be reached from s. */
  ghost predicate Reachable(adj: WAdj, s: int, v: int) {
    exists arcs :: IsWalk(adj, s, arcs) && End(s, arcs) == v
  }

  lemma WalkExtend(adj: WAdj, s: int, arcs: seq<Arc>, a: Arc)
    requires IsWalk(adj, s, arcs) && IsVertex(adj, End(s, arcs)) && a in adj[End(s, arcs)]
    ensures IsWalk(adj, s, arcs + [a]) && End(s, arcs + [a]) == a.to
    ensures Weight(arcs + [a]) == Weight(arcs) + a.weight
  {
    assert (arcs + [a])[..|arcs|] == arcs;
  }

  /** Every vertex a walk passes through is a vertex of the graph. */
  lemma WalkEnd(adj: WAdj, s: int, arcs: seq<Arc>)
    requires WellFormed(adj) && IsWalk(adj, s, arcs)
    ensures IsVertex(adj, End(s, arcs))
  {
    if |arcs| > 0 {
      var init := arcs[..|arcs| - 1];
      var u := End(s, init);
      var k :| 0 <= k < |adj[u]| && adj[u][k] == arcs[|arcs| - 1];
    }
  }
}
