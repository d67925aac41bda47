/** graph-01-Toposort-Kahns.cpp: a directed graph built by `addEdge`, sorted
    topologically by Kahn's in-degree queue (`topologicalSortBFS`) and by
    depth-first finish order (`topologicalSortDFS`). Both routines print their
    result; here they return it. */
module Toposort {
  import opened Graph
  import opened Seqs
  import opened Dfs

  /** `Graph(V)` followed by `addEdge(u, v)` calls. */
  function Build(n: nat, edges: seq<(int, int)>): (adj: Adj)
    requires forall k :: 0 <= k < |edges| ==> 0 <= edges[k].0 < n && 0 <= edges[k].1 < n
    ensures |adj| == n && WellFormed(adj)
    ensures forall u, v :: Multiplicity(adj, u, v) == multiset(edges)[(u, v)]
  {
    if |edges| == 0 then
      Empty(n)
    else
      var last := |edges| - 1;
      assert edges == edges[..last] + [edges[last]];
      AddEdge(Build(n, edges[..last]), edges[last].0, edges[last].1)
  }

  // ---------------------------------------------------------------------
  // In-degrees

  /** Number of edges into v from the vertices u < k that are not in done. */
  function InFrom(adj: Adj, done: set<int>, v: int, k: int): nat
    requires 0 <= k <= |adj|
    decreases k
  {
    if k == 0 then 0
    else InFrom(adj, done, v, k - 1) + (if k - 1 in done then 0 else multiset(adj[k - 1])[v])
  }

  /** The in-degree of v: the number of edges u -> v, counted with multiplicity. */
  function InDegree(adj: Adj, v: int): nat {
    InFrom(adj, {}, v, |adj|)
  }

  /** No edge into v comes from a vertex below k outside done, exactly when
      the count is zero. */
  lemma {:induction false} InFromZero(adj: Adj, done: set<int>, v: int, k: int)
    requires 0 <= k <= |adj|
    ensures InFrom(adj, done, v, k) == 0 <==> forall u :: 0 <= u < k && u !in done ==> v !in adj[u]
    decreases k
  {
    if k > 0 {
      InFromZero(adj, done, v, k - 1);
      if k - 1 !in done && v in adj[k - 1] {
        assert multiset(adj[k - 1])[v] > 0;
      }
    }
  }

  /** Marking u done removes exactly u's edges into v from the count. */
  lemma {:induction false} InFromAdd(adj: Adj, done: set<int>, u: int, v: int, k: int)
    requires 0 <= k <= |adj| && u !in done
    ensures InFrom(adj, done + {u}, v, k)
            == InFrom(adj, done, v, k) - (if 0 <= u < k then multiset(adj[u])[v] else 0)
    decreases k
  {
    if k > 0 {
      InFromAdd(adj, done, u, v, k - 1);
    }
  }

  /** The counting loops of `topologicalSortBFS`: `inDegree[v]` is the
      number of edges u -> v. */
  method InDegrees(adj: Adj) returns (deg: seq<int>)
    requires WellFormed(adj)
    ensures |deg| == |adj|
    ensures forall v :: 0 <= v < |adj| ==> deg[v] == InDegree(adj, v)
  {
    var n := |adj|;
    deg := seq(n, _ => 0);
    var u := 0;
    while u < n
      invariant 0 <= u <= n && |deg| == n
      invariant forall v :: 0 <= v < n ==> deg[v] == InFrom(adj, {}, v, u)
    {
      var j := 0;
      while j < |adj[u]|
        invariant 0 <= j <= |adj[u]| && |deg| == n
        invariant forall v :: 0 <= v < n ==> deg[v] == InFrom(adj, {}, v, u) + multiset(adj[u][..j])[v]
      {
        var w := adj[u][j];
        assert adj[u][..j + 1] == adj[u][..j] + [w];
        deg := deg[w := deg[w] + 1];
        j := j + 1;
      }
      assert adj[u][..j] == adj[u];
      u := u + 1;
    }
  }

  /** The queue's initial contents: the vertices of in-degree 0, in increasing order. */
  method ZeroQueue(deg: seq<int>) returns (q: seq<int>)
    ensures InRange(q, |deg|) && Distinct(q)
    ensures forall v :: v in q <==> 0 <= v < |deg| && deg[v] == 0
    ensures forall i, j :: 0 <= i < j < |q| ==> q[i] < q[j]
  {
    q := [];
    var i := 0;
    while i < |deg|
      invariant 0 <= i <= |deg| && InRange(q, i)
      invariant forall v :: v in q <==> 0 <= v < i && deg[v] == 0
      invariant forall a, b :: 0 <= a < b < |q| ==> q[a] < q[b]
    {
      if deg[i] == 0 {
        q := q + [i];
      }
      i := i + 1;
    }
  }

  // ---------------------------------------------------------------------
  // Kahn's algorithm

  /** Every vertex placed in the order comes after all its predecessors. */
  ghost predicate PredsFirst(adj: Adj, order: seq<int>) {
    forall a, u :: 0 <= a < |order| && Edge(adj, u, order[a]) ==> u in order[..a]
  }

  /** The state of Kahn's outer loop: the order and the queue together list
      distinct vertices; `inDegree[v]` counts the edges into v from vertices
      not yet in the order; exactly the listed vertices have count 0. */
  ghost predicate KahnInv(adj: Adj, order: seq<int>, q: seq<int>, deg: seq<int>) {
    && WellFormed(adj) && |deg| == |adj|
    && InRange(order + q, |adj|) && Distinct(order + q)
    && (forall v :: 0 <= v < |adj| ==> deg[v] == InFrom(adj, Elems(order), v, |adj|))
    && (forall v :: 0 <= v < |adj| ==> (v in order || v in q <==> deg[v] == 0))
    && PredsFirst(adj, order)
  }

  /** The state of the inner loop over u's successors, u being the vertex
      just appended to the order: the not-yet-scanned edges u -> v are still
      counted in `inDegree[v]`. */
  ghost predicate ScanInv(adj: Adj, order: seq<int>, q: seq<int>, deg: seq<int>, u: int, j: int) {
    && WellFormed(adj) && |deg| == |adj| && |order| > 0 && order[|order| - 1] == u
    && IsVertex(adj, u) && 0 <= j <= |adj[u]|
    && InRange(order + q, |adj|) && Distinct(order + q)
    && (forall v :: 0 <= v < |adj| ==>
          deg[v] == InFrom(adj, Elems(order), v, |adj|) + multiset(adj[u][j..])[v])
    && (forall v :: 0 <= v < |adj| ==> (v in order || v in q <==> deg[v] == 0))
    && PredsFirst(adj, order)
  }

  /** `topologicalSortBFS`. The order lists distinct vertices, each after all
      of its predecessors; it lists every vertex exactly when the graph has no
      cycle, and then it is a topological order. `hasCycle` is the
      "Graph has a cycle!" branch. */
  method TopologicalSortBfs(adj: Adj) returns (order: seq<int>, hasCycle: bool)
    requires WellFormed(adj)
    ensures InRange(order, |adj|) && Distinct(order) && |order| <= |adj|
    ensures PredsFirst(adj, order)
    ensures hasCycle <==> |order| != |adj|
    ensures hasCycle <==> HasCycle(adj)
    ensures !hasCycle ==> IsTopologicalOrder(adj, order)
  {
    var deg := InDegrees(adj);
    var q := ZeroQueue(deg);
    order := [];
    forall v | 0 <= v < |adj| ensures deg[v] == InFrom(adj, Elems(order), v, |adj|) {
      assert Elems(order) == {};
    }
    while |q| > 0
      invariant KahnInv(adj, order, q, deg)
      decreases |adj| - |order|
    {
      DistinctRangeLength(order + q, |adj|);
      var u := q[0];
      assert q == [u] + q[1..];
      q := q[1..];
      PopStep(adj, order, q, deg, u);
      order := order + [u];
      q, deg := Release(adj, order, q, deg, u);
    }
    hasCycle := |order| != |adj|;
    KahnResult(adj, order, deg);
  }

  /** Popping u, whose count is zero: all its predecessors are already in the
      order, and the inner loop may start. */
  lemma PopStep(adj: Adj, order: seq<int>, q: seq<int>, deg: seq<int>, u: int)
    requires KahnInv(adj, order, [u] + q, deg)
    ensures ScanInv(adj, order + [u], q, deg, u, 0)
  {
    var n := |adj|;
    var o := order + [u];
    var all := order + ([u] + q);
    assert order + [u] + q == all;
    assert all[|order|] == u;
    DistinctAppend(order, [u] + q);
    assert u !in order && deg[u] == 0;
    InFromZero(adj, Elems(order), u, n);
    assert Elems(o) == Elems(order) + {u};
    forall v | 0 <= v < n
      ensures deg[v] == InFrom(adj, Elems(o), v, n) + multiset(adj[u][0..])[v]
    {
      InFromAdd(adj, Elems(order), u, v, n);
      assert adj[u][0..] == adj[u];
      InFromLower(adj, Elems(order), u, v, n);
    }
    forall a, w | 0 <= a < |o| && Edge(adj, w, o[a])
      ensures w in o[..a]
    {
      if a < |order| {
        assert o[..a] == order[..a];
      } else {
        assert o[..a] == order;
      }
    }
  }

  /** The edges u -> v are among those counted while u is outside done. */
  lemma {:induction false} InFromLower(adj: Adj, done: set<int>, u: int, v: int, k: int)
    requires 0 <= u < k <= |adj| && u !in done
    ensures InFrom(adj, done, v, k) >= multiset(adj[u])[v]
    decreases k
  {
    if u < k - 1 {
      InFromLower(adj, done, u, v, k - 1);
    }
  }

  /** The inner loop of `topologicalSortBFS`: decrement the count of every
      successor of u and enqueue those that reach zero. */
  method Release(adj: Adj, order: seq<int>, q0: seq<int>, deg0: seq<int>, u: int)
    returns (q: seq<int>, deg: seq<int>)
    requires ScanInv(adj, order, q0, deg0, u, 0)
    ensures KahnInv(adj, order, q, deg)
  {
    q, deg := q0, deg0;
    var j := 0;
    while j < |adj[u]|
      invariant ScanInv(adj, order, q, deg, u, j)
    {
      q, deg := ReleaseOne(adj, order, q, deg, u, j);
      j := j + 1;
    }
    forall v | 0 <= v < |adj| ensures deg[v] == InFrom(adj, Elems(order), v, |adj|) {
      assert |adj[u][j..]| == 0;
    }
  }

  /** One turn of the inner loop, on the edge u -> adj[u][j]. */
  method ReleaseOne(adj: Adj, order: seq<int>, q0: seq<int>, deg0: seq<int>, u: int, j: int)
    returns (q: seq<int>, deg: seq<int>)
    requires ScanInv(adj, order, q0, deg0, u, j) && j < |adj[u]|
    ensures ScanInv(adj, order, q, deg, u, j + 1)
  {
    var w := adj[u][j];
    assert adj[u][j..] == [w] + adj[u][j + 1..];
    assert deg0[w] > 0;
    deg := deg0[w := deg0[w] - 1];
    q := q0;
    if deg[w] == 0 {
      q := q0 + [w];
      assert order + q == (order + q0) + [w];
    }
  }

  /** When the queue runs dry: every vertex listed means a topological order;
      a vertex left out means every left-out vertex has a left-out
      predecessor, which closes a cycle. */
  lemma KahnResult(adj: Adj, order: seq<int>, deg: seq<int>)
    requires KahnInv(adj, order, [], deg)
    ensures InRange(order, |adj|) && Distinct(order) && |order| <= |adj|
    ensures |order| == |adj| ==> IsTopologicalOrder(adj, order)
    ensures |order| == |adj| <==> !HasCycle(adj)
  {
    var n := |adj|;
    assert order + [] == order;
    DistinctRangeLength(order, n);
    if |order| == n {
      forall i, j | 0 <= i < n && 0 <= j < n && Edge(adj, order[i], order[j])
        ensures i < j
      {
        assert order[i] in order[..j];
        var i' :| 0 <= i' < j && order[i'] == order[i];
      }
      TopologicalNoCycle(adj, order);
    } else {
      var done := Elems(order);
      var w :| 0 <= w < n && w !in done by {
        if Range(n) <= done {
          assert Elems(order) == Range(n);
          DistinctCard(order);
          RangeCard(n);
        }
      }
      assert IsPath(adj, [w]);
      BackwardCycle(adj, done, [w]);
    }
  }

  /** Walking backwards along edges from vertices outside done, every one of
      which has an edge coming in from outside done, must repeat a vertex:
      the graph has a cycle. */
  lemma {:induction false} BackwardCycle(adj: Adj, done: set<int>, p: seq<int>)
    requires WellFormed(adj)
    requires forall x :: 0 <= x < |adj| && x !in done ==> InFrom(adj, done, x, |adj|) > 0
    requires IsPath(adj, p) && Distinct(p) && forall k :: 0 <= k < |p| ==> p[k] !in done
    ensures HasCycle(adj)
    decreases |adj| - |p|
  {
    var x := p[0];
    InFromZero(adj, done, x, |adj|);
    var y :| 0 <= y < |adj| && y !in done && x in adj[y];
    if y in p {
      var m :| 0 <= m < |p| && p[m] == y;
      PathReach(adj, p, 0, m);
      assert Edge(adj, y, x);
    } else {
      var p' := [y] + p;
      assert IsPath(adj, p');
      DistinctRangeLength(p', |adj|);
      BackwardCycle(adj, done, p');
    }
  }

  // ---------------------------------------------------------------------
  // DFS variant

  function Reverse(s: seq<int>): (r: seq<int>)
    ensures |r| == |s| && forall i :: 0 <= i < |s| ==> r[i] == s[|s| - 1 - i]
  {
    if |s| == 0 then [] else Reverse(s[1..]) + [s[0]]
  }

  /** In an acyclic graph the finish order puts every edge's head before its tail. */
  lemma FinishOrderAcyclic(adj: Adj, stack: seq<int>)
    requires WellFormed(adj) && Distinct(stack) && FinishOrder(adj, stack) && !HasCycle(adj)
    ensures forall i, j :: 0 <= i < |stack| && 0 <= j < |stack| && Edge(adj, stack[i], stack[j]) ==> j < i
  {
    forall i, j | 0 <= i < |stack| && 0 <= j < |stack| && Edge(adj, stack[i], stack[j])
      ensures j < i
    {
      AcyclicEdge(adj, stack, i, j);
    }
  }

  lemma AcyclicEdge(adj: Adj, stack: seq<int>, i: int, j: int)
    requires WellFormed(adj) && Distinct(stack) && !HasCycle(adj)
    requires 0 <= i < |stack| && 0 <= j < |stack| && FinishedAt(adj, stack, i)
    requires Edge(adj, stack[i], stack[j])
    ensures j < i
  {
    var x, y := stack[i], stack[j];
    var pre := stack[..i + 1];
    assert IsPath(adj, [x, y]);
    FinishedAcyclic(adj, pre, y);
    if j == i {
      ReachRefl(adj, x);
    } else {
      var j' :| 0 <= j' < |pre| && pre[j'] == y;
      assert stack[j'] == y;
    }
  }

  /** Without cycles, a finished vertex has everything it reaches pushed
      before it. */
  lemma FinishedAcyclic(adj: Adj, pre: seq<int>, y: int)
    requires WellFormed(adj) && !HasCycle(adj) && |pre| > 0 && Finished(adj, pre)
    requires Reach(adj, pre[|pre| - 1], y)
    ensures y in pre
  {
    if y !in pre {
      var g :| Mutual(adj, g, pre[|pre| - 1]) && g !in pre && Reach(adj, g, y);
      MutualCycle(adj, g, pre[|pre| - 1]);
    }
  }

  /** `topologicalSortDFS`: the vertices in the order they are popped off the
      finish stack. Every vertex appears exactly once; for an acyclic graph the
      order is topological. */
  method TopologicalSortDfs(adj: Adj) returns (order: seq<int>)
    requires WellFormed(adj)
    ensures |order| == |adj| && InRange(order, |adj|) && Distinct(order)
    ensures !HasCycle(adj) ==> IsTopologicalOrder(adj, order)
  {
    var stack := DfsAll(adj);
    order := Reverse(stack);
    ReverseDistinct(stack, order, |adj|);
    if !HasCycle(adj) {
      FinishOrderAcyclic(adj, stack);
      ReverseTopological(adj, stack, order);
    }
  }

  lemma ReverseDistinct(s: seq<int>, r: seq<int>, n: int)
    requires InRange(s, n) && Distinct(s)
    requires |r| == |s| && forall i :: 0 <= i < |s| ==> r[i] == s[|s| - 1 - i]
    ensures InRange(r, n) && Distinct(r)
  {
    forall i, j | 0 <= i < j < |r| ensures r[i] != r[j] {
      assert r[i] == s[|s| - 1 - i] && r[j] == s[|s| - 1 - j];
    }
  }

  /** Reversing an order in which every edge points backwards gives a
      topological order. */
  lemma ReverseTopological(adj: Adj, stack: seq<int>, order: seq<int>)
    requires |stack| == |adj| && InRange(stack, |adj|) && Distinct(stack)
    requires forall i, j :: 0 <= i < |stack| && 0 <= j < |stack| && Edge(adj, stack[i], stack[j]) ==> j < i
    requires |order| == |stack| && forall i :: 0 <= i < |stack| ==> order[i] == stack[|stack| - 1 - i]
    ensures IsTopologicalOrder(adj, order)
  {
    var n := |adj|;
    ReverseDistinct(stack, order, n);
    forall i, j | 0 <= i < n && 0 <= j < n && Edge(adj, order[i], order[j])
      ensures i < j
    {
      assert order[i] == stack[n - 1 - i] && order[j] == stack[n - 1 - j];
    }
  }
}
