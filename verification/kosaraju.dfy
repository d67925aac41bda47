/** Kosaraju's algorithm of graph-SCC-Kosaraju.cpp. The class keeps the graph
    and its transpose side by side; `findSCCs` runs the finish-order search
    of `Dfs` over the graph, then pops the finish stack and, from every vertex
    not yet marked, searches the transpose (`dfsTranspose`), printing one
    strongly connected component per search.

    The printed lines are modelled as the returned sequence of components,
    each listing its vertices in the order `dfsTranspose` prints them. */
module Kosaraju {
  import opened Graph
  import opened Seqs
  import opened Dfs

  /** `adj` and `adjT` of the class. */
  datatype Digraph = Digraph(adj: Adj, adjT: Adj)

  /** adjT lists every edge of adj reversed, exactly as often. */
  ghost predicate IsTranspose(adj: Adj, adjT: Adj) {
    && |adjT| == |adj|
    && forall a, b :: Multiplicity(adjT, b, a) == Multiplicity(adj, a, b)
  }

  ghost predicate Valid(g: Digraph) {
    WellFormed(g.adj) && WellFormed(g.adjT) && IsTranspose(g.adj, g.adjT)
  }

  /** `Graph(V)`: both lists empty. */
  function New(n: nat): (g: Digraph)
    ensures Valid(g) && |g.adj| == n
    ensures forall u, v :: !Edge(g.adj, u, v)
  {
    Digraph(Empty(n), Empty(n))
  }

  /** `addEdge(u, v)`: u -> v in the graph and v -> u in the transpose, so the
      two stay each other's reversal. */
  function AddEdge(g: Digraph, u: int, v: int): (r: Digraph)
    requires Valid(g) && IsVertex(g.adj, u) && IsVertex(g.adj, v)
    ensures Valid(r) && |r.adj| == |g.adj|
    ensures forall a, b ::
              Multiplicity(r.adj, a, b) == Multiplicity(g.adj, a, b) + (if a == u && b == v then 1 else 0)
  {
    Digraph(Graph.AddEdge(g.adj, u, v), Graph.AddEdge(g.adjT, v, u))
  }

  // ---------------------------------------------------------------------
  // Reachability in the transpose

  /** Every edge of adjT is an edge of adj turned round. */
  ghost predicate Reverses(adj: Adj, adjT: Adj) {
    |adjT| == |adj| && forall a, b :: Edge(adjT, a, b) ==> Edge(adj, b, a)
  }

  lemma TransposeReverses(adj: Adj, adjT: Adj)
    requires IsTranspose(adj, adjT)
    ensures Reverses(adj, adjT) && Reverses(adjT, adj)
  {
    forall a, b ensures Edge(adjT, a, b) <==> Edge(adj, b, a) {
      EdgeMultiplicity(adjT, a, b);
      EdgeMultiplicity(adj, b, a);
    }
  }

  /** A path of the transpose, read backwards, is a path of the graph. */
  lemma ReachReversed(adj: Adj, adjT: Adj, a: int, b: int)
    requires Reverses(adj, adjT) && Reach(adjT, a, b)
    ensures Reach(adj, b, a)
  {
    var p :| IsPath(adjT, p) && p[0] == a && p[|p| - 1] == b;
    var n := |p|;
    var q := seq(n, i requires 0 <= i < n => p[n - 1 - i]);
    forall i | 0 <= i < n - 1
      ensures Edge(adj, q[i], q[i + 1])
    {
      assert Edge(adjT, p[n - 2 - i], p[n - 1 - i]);
    }
    assert IsPath(adj, q);
  }

  /** b reaches a in the graph exactly when a reaches b in its transpose. */
  lemma ReachTranspose(adj: Adj, adjT: Adj, a: int, b: int)
    requires IsTranspose(adj, adjT)
    ensures Reach(adjT, a, b) <==> Reach(adj, b, a)
  {
    TransposeReverses(adj, adjT);
    if Reach(adjT, a, b) {
      ReachReversed(adj, adjT, a, b);
    }
    if Reach(adj, b, a) {
      ReachReversed(adjT, adj, b, a);
    }
  }

  // ---------------------------------------------------------------------
  // dfsTranspose

  ghost predicate CollectPre(adjT: Adj, v: int, visited: set<int>) {
    WellFormed(adjT) && IsVertex(adjT, v) && v !in visited && visited <= Range(|adjT|)
  }

  /** What `dfsTranspose(v, visited)` achieves: comp, the vertices it prints,
      starts with v, lists each newly marked vertex once, all reachable from
      v, and every edge out of them leads to a marked vertex. */
  ghost predicate CollectPost(adjT: Adj, v: int, visited: set<int>, visited': set<int>, comp: seq<int>) {
    && |comp| > 0 && comp[0] == v && InRange(comp, |adjT|) && Distinct(comp)
    && visited' <= Range(|adjT|)
    && (forall x :: x in visited' <==> x in visited || x in comp)
    && (forall k :: 0 <= k < |comp| ==> comp[k] !in visited && Reach(adjT, v, comp[k]))
    && (forall a, b :: a in comp && Edge(adjT, a, b) ==> b in visited')
  }

  /** The state of the neighbour loop of `dfsTranspose(v)`: as `CollectPost`,
      except that v's own edges are not all followed yet. */
  ghost predicate CollectFrame(adjT: Adj, v: int, visited: set<int>, vis: set<int>, comp: seq<int>) {
    && |comp| > 0 && comp[0] == v && InRange(comp, |adjT|) && Distinct(comp)
    && vis <= Range(|adjT|)
    && (forall x :: x in vis <==> x in visited || x in comp)
    && (forall k :: 0 <= k < |comp| ==> comp[k] !in visited && Reach(adjT, v, comp[k]))
    && (forall a, b :: a in comp && a != v && Edge(adjT, a, b) ==> b in vis)
  }

  /** `dfsTranspose(v, visited)`, returning what it prints. */
  method Collect(adjT: Adj, v: int, visited: set<int>) returns (visited': set<int>, comp: seq<int>)
    requires CollectPre(adjT, v, visited)
    ensures CollectPost(adjT, v, visited, visited', comp)
    decreases |adjT| - |visited|, 1
  {
    comp := [v];
    var vis := visited + {v};
    CollectStart(adjT, v, visited);
    var j := 0;
    while j < |adjT[v]|
      invariant 0 <= j <= |adjT[v]|
      invariant CollectFrame(adjT, v, visited, vis, comp)
      invariant Scanned(adjT, v, j, vis)
    {
      vis, comp := CollectNeighbour(adjT, v, visited, vis, comp, adjT[v][j]);
      j := j + 1;
    }
    visited' := vis;
    CollectDone(adjT, v, visited, vis, comp);
  }

  /** One turn of the neighbour loop of `dfsTranspose(v)`. */
  method CollectNeighbour(adjT: Adj, v: int, visited: set<int>, vis: set<int>, comp: seq<int>, u: int)
    returns (vis2: set<int>, comp2: seq<int>)
    requires CollectPre(adjT, v, visited) && CollectFrame(adjT, v, visited, vis, comp)
    requires u in adjT[v]
    ensures CollectFrame(adjT, v, visited, vis2, comp2)
    ensures vis <= vis2 && u in vis2
    decreases |adjT| - |visited|, 0
  {
    if u in vis {
      return vis, comp;
    }
    FrameContains(adjT, v, visited, vis, comp);
    Shrinks(adjT, v, visited, vis);
    var vis', sub := Collect(adjT, u, vis);
    CollectJoin(adjT, v, visited, vis, comp, u, vis', sub);
    vis2, comp2 := vis', comp + sub;
  }

  lemma CollectStart(adjT: Adj, v: int, visited: set<int>)
    requires CollectPre(adjT, v, visited)
    ensures CollectFrame(adjT, v, visited, visited + {v}, [v])
  {
    ReachRefl(adjT, v);
  }

  lemma FrameContains(adjT: Adj, v: int, visited: set<int>, vis: set<int>, comp: seq<int>)
    requires CollectFrame(adjT, v, visited, vis, comp)
    ensures visited + {v} <= vis
  {
    assert comp[0] in comp;
    forall x | x in visited + {v} ensures x in vis {
    }
  }

  /** After recursing into u the marked vertices are appended to comp. */
  lemma CollectJoin(adjT: Adj, v: int, visited: set<int>, vis: set<int>, comp: seq<int>,
                    u: int, vis': set<int>, sub: seq<int>)
    requires CollectPre(adjT, v, visited) && CollectFrame(adjT, v, visited, vis, comp)
    requires u in adjT[v]
    requires CollectPost(adjT, u, vis, vis', sub)
    ensures CollectFrame(adjT, v, visited, vis', comp + sub)
  {
    var c := comp + sub;
    DistinctJoin(comp, sub) by {
      forall x | x in comp ensures x !in sub {
        assert x in vis;
      }
    }
    forall x ensures x in vis' <==> x in visited || x in c {
      assert x in c <==> x in comp || x in sub;
    }
    forall k | 0 <= k < |c|
      ensures c[k] !in visited && Reach(adjT, v, c[k])
    {
      if k >= |comp| {
        assert c[k] == sub[k - |comp|];
        ReachPrepend(adjT, v, u, c[k]);
      }
    }
    forall a, b | a in c && a != v && Edge(adjT, a, b)
      ensures b in vis'
    {
      if a in comp {
        assert b in vis;
      } else {
        assert a in sub;
      }
    }
  }

  lemma CollectDone(adjT: Adj, v: int, visited: set<int>, vis: set<int>, comp: seq<int>)
    requires CollectPre(adjT, v, visited) && CollectFrame(adjT, v, visited, vis, comp)
    requires Scanned(adjT, v, |adjT[v]|, vis)
    ensures CollectPost(adjT, v, visited, vis, comp)
  {
    forall a, b | a in comp && Edge(adjT, a, b)
      ensures b in vis
    {
      if a == v {
        var k :| 0 <= k < |adjT[v]| && adjT[v][k] == b;
      }
    }
  }

  // ---------------------------------------------------------------------
  // Components

  /** c lists, once each, exactly the vertices of one strongly connected
      component (the one of c[0]). */
  ghost predicate IsScc(adj: Adj, c: seq<int>) {
    && |c| > 0 && Distinct(c)
    && forall x :: x in c <==> IsVertex(adj, x) && Mutual(adj, x, c[0])
  }

  /** s is a union of whole components. */
  ghost predicate MutualClosed(adj: Adj, s: set<int>) {
    forall a, b :: a in s && Mutual(adj, a, b) ==> b in s
  }

  /** The vertices of all components found so far. */
  function Union(comps: seq<seq<int>>): set<int> {
    if |comps| == 0 then {} else Union(comps[..|comps| - 1]) + Elems(comps[|comps| - 1])
  }

  lemma UnionAppend(comps: seq<seq<int>>, comp: seq<int>)
    ensures Union(comps + [comp]) == Union(comps) + Elems(comp)
  {
    assert (comps + [comp])[..|comps|] == comps;
  }

  lemma {:induction false} UnionMember(comps: seq<seq<int>>, x: int)
    requires x in Union(comps)
    ensures exists i :: 0 <= i < |comps| && x in comps[i]
  {
    var init := comps[..|comps| - 1];
    if x !in Elems(comps[|comps| - 1]) {
      UnionMember(init, x);
      var i :| 0 <= i < |init| && x in init[i];
      assert init[i] == comps[i];
    }
  }

  lemma {:induction false} UnionContains(comps: seq<seq<int>>, i: int, x: int)
    requires 0 <= i < |comps| && x in comps[i]
    ensures x in Union(comps)
  {
    var init := comps[..|comps| - 1];
    if i < |comps| - 1 {
      assert init[i] == comps[i];
      UnionContains(init, i, x);
    }
  }

  /** The finish stack of the first pass: every vertex once, in finish order. */
  ghost predicate FinishStack(adj: Adj, stack: seq<int>) {
    && |stack| == |adj| && InRange(stack, |adj|) && Distinct(stack)
    && (forall v :: 0 <= v < |adj| ==> v in stack)
    && FinishOrder(adj, stack)
  }

  /** If x reaches r but not the other way round, some vertex of x's
      component finishes after r. Climbing from any member of the component,
      `Finished` either puts r below it or names a later-finished member. */
  lemma {:induction false} LaterInComponent(adj: Adj, stack: seq<int>, x: int, r: int, i: int)
    requires WellFormed(adj) && FinishStack(adj, stack)
    requires 0 <= i < |stack| && Mutual(adj, stack[i], x)
    requires Reach(adj, x, r)
    ensures Reach(adj, r, x) || exists j :: 0 <= j < |stack| && Mutual(adj, stack[j], x) && r in stack[..j]
    decreases |stack| - i
  {
    if Reach(adj, r, x) {
      return;
    }
    var v := stack[i];
    ReachTrans(adj, v, x, r);
    assert r != v;
    FinishedStep(adj, stack, i, r);
    if r in stack[..i + 1] {
      var t :| 0 <= t <= i && stack[..i + 1][t] == r;
      assert stack[..i][t] == r;
    } else {
      var j :| i < j < |stack| && Mutual(adj, stack[j], v);
      MutualTrans(adj, stack[j], v, x);
      LaterInComponent(adj, stack, x, r, j);
    }
  }

  /** One application of `Finished`: what the i-th pushed vertex reaches is
      pushed no later, or a member of its component is pushed after it. */
  lemma FinishedStep(adj: Adj, stack: seq<int>, i: int, r: int)
    requires WellFormed(adj) && FinishStack(adj, stack)
    requires 0 <= i < |stack| && Reach(adj, stack[i], r)
    ensures r in stack[..i + 1] || exists j :: i < j < |stack| && Mutual(adj, stack[j], stack[i])
  {
    var v, pre := stack[i], stack[..i + 1];
    assert FinishedAt(adj, stack, i);
    assert Descendant(adj, v, r);
    if r !in pre {
      var g :| Mutual(adj, g, v) && g !in pre && Reach(adj, g, r);
      ReachVertex(adj, g, r);
      var j := IndexOf(stack, g);
      forall t | 0 <= t <= i ensures stack[t] != g {
        assert pre[t] == stack[t];
      }
    }
  }

  /** The state of the second pass after popping the top |stack| - k
      entries: the marked vertices are exactly the components found, which
      are disjoint strongly connected components, and include every popped
      vertex. */
  ghost predicate SecondPass(adj: Adj, stack: seq<int>, k: int, visited: set<int>, comps: seq<seq<int>>) {
    && 0 <= k <= |stack|
    && visited <= Range(|adj|)
    && Popped(stack, k, visited)
    && MutualClosed(adj, visited)
    && visited == Union(comps)
    && AllScc(adj, comps) && Disjoint(comps)
  }

  /** The entries from position k up are marked. */
  predicate Popped(stack: seq<int>, k: int, visited: set<int>) {
    forall i :: 0 <= i < |stack| && k <= i ==> stack[i] in visited
  }

  ghost predicate AllScc(adj: Adj, comps: seq<seq<int>>) {
    forall i :: 0 <= i < |comps| ==> IsScc(adj, comps[i])
  }

  predicate Disjoint(comps: seq<seq<int>>) {
    forall i, j :: 0 <= i < j < |comps| ==> Elems(comps[i]) !! Elems(comps[j])
  }

  /** `findSCCs`: every vertex lies in exactly one returned component, and
      each returned component is a whole strongly connected component. */
  method FindSccs(g: Digraph) returns (comps: seq<seq<int>>)
    requires Valid(g)
    ensures forall i :: 0 <= i < |comps| ==> IsScc(g.adj, comps[i])
    ensures forall i, j :: 0 <= i < j < |comps| ==> Elems(comps[i]) !! Elems(comps[j])
    ensures forall v :: IsVertex(g.adj, v) ==> exists i :: 0 <= i < |comps| && v in comps[i]
  {
    var stack := DfsAll(g.adj);
    var visited: set<int> := {};
    comps := [];
    var k := |stack|;
    SecondStart(g.adj, stack);
    while k > 0
      invariant SecondPass(g.adj, stack, k, visited, comps)
    {
      visited, comps := Pop(g, stack, k, visited, comps);
      k := k - 1;
    }
    SecondDone(g.adj, stack, visited, comps);
  }

  /** One iteration of the second loop: pop the top, and search the
      transpose from it unless it is marked. */
  method Pop(g: Digraph, stack: seq<int>, k: int, visited: set<int>, comps: seq<seq<int>>)
    returns (visited': set<int>, comps': seq<seq<int>>)
    requires Valid(g) && FinishStack(g.adj, stack)
    requires SecondPass(g.adj, stack, k, visited, comps) && k > 0
    ensures SecondPass(g.adj, stack, k - 1, visited', comps')
  {
    var node := stack[k - 1];
    if node in visited {
      return visited, comps;
    }
    var comp;
    visited', comp := Collect(g.adjT, node, visited);
    SccFound(g, stack, k, visited, comps, visited', comp);
    comps' := comps + [comp];
  }

  lemma SecondStart(adj: Adj, stack: seq<int>)
    requires FinishStack(adj, stack)
    ensures SecondPass(adj, stack, |stack|, {}, [])
  {
  }

  /** Once the stack is empty every vertex is marked, so lies in a component. */
  lemma SecondDone(adj: Adj, stack: seq<int>, visited: set<int>, comps: seq<seq<int>>)
    requires forall v :: IsVertex(adj, v) ==> v in stack
    requires forall i :: 0 <= i < |stack| ==> stack[i] in visited
    requires visited == Union(comps)
    ensures forall v :: IsVertex(adj, v) ==> exists i :: 0 <= i < |comps| && v in comps[i]
  {
    forall v | IsVertex(adj, v)
      ensures exists i :: 0 <= i < |comps| && v in comps[i]
    {
      assert v in stack;
      var k :| 0 <= k < |stack| && stack[k] == v;
      UnionMember(comps, v);
    }
  }

  /** One search of the transpose from the top unmarked vertex of the stack
      collects exactly that vertex's component. */
  lemma SccFound(g: Digraph, stack: seq<int>, k: int, visited: set<int>, comps: seq<seq<int>>,
                 visited': set<int>, comp: seq<int>)
    requires Valid(g) && FinishStack(g.adj, stack)
    requires SecondPass(g.adj, stack, k, visited, comps) && k > 0 && stack[k - 1] !in visited
    requires CollectPost(g.adjT, stack[k - 1], visited, visited', comp)
    ensures SecondPass(g.adj, stack, k - 1, visited', comps + [comp])
  {
    CompIsScc(g, stack, k, visited, comps, visited', comp);
    Extend(g.adj, stack, k, visited, comps, visited', comp);
  }

  /** Recording a new component, disjoint from the marked vertices and
      containing the popped vertex, keeps the second-pass state. */
  lemma Extend(adj: Adj, stack: seq<int>, k: int, visited: set<int>, comps: seq<seq<int>>,
               visited': set<int>, comp: seq<int>)
    requires WellFormed(adj) && SecondPass(adj, stack, k, visited, comps) && k > 0
    requires IsScc(adj, comp) && comp[0] == stack[k - 1]
    requires visited' <= Range(|adj|)
    requires forall x :: x in visited' <==> x in visited || x in comp
    requires forall t :: 0 <= t < |comp| ==> comp[t] !in visited
    ensures SecondPass(adj, stack, k - 1, visited', comps + [comp])
  {
    StillClosed(adj, stack[k - 1], visited, visited', comp);
    UnionGrows(comps, comp, visited, visited');
    AllSccAppend(adj, comps, comp);
    PoppedStep(stack, k, visited, visited', comp);
  }

  lemma AllSccAppend(adj: Adj, comps: seq<seq<int>>, comp: seq<int>)
    requires AllScc(adj, comps) && IsScc(adj, comp)
    ensures AllScc(adj, comps + [comp])
  {
    var comps' := comps + [comp];
    forall i | 0 <= i < |comps'| ensures IsScc(adj, comps'[i]) {
      if i < |comps| {
        assert comps'[i] == comps[i];
      }
    }
  }

  lemma PoppedStep(stack: seq<int>, k: int, visited: set<int>, visited': set<int>, comp: seq<int>)
    requires Popped(stack, k, visited) && 0 < k <= |stack| && |comp| > 0 && comp[0] == stack[k - 1]
    requires forall x :: x in visited' <==> x in visited || x in comp
    ensures Popped(stack, k - 1, visited')
  {
    forall i | 0 <= i < |stack| && k - 1 <= i ensures stack[i] in visited' {
      if i == k - 1 {
        assert stack[i] == comp[0] && comp[0] in comp;
      } else {
        assert stack[i] in visited;
      }
      assert stack[i] in visited || stack[i] in comp;
    }
  }

  /** Adding a whole component keeps the marked set a union of components. */
  lemma StillClosed(adj: Adj, node: int, visited: set<int>, visited': set<int>, comp: seq<int>)
    requires WellFormed(adj) && MutualClosed(adj, visited) && IsScc(adj, comp) && comp[0] == node
    requires forall x :: x in visited' <==> x in visited || x in comp
    ensures MutualClosed(adj, visited')
  {
    forall a, b | a in visited' && Mutual(adj, a, b)
      ensures b in visited'
    {
      if a !in visited {
        MutualTrans(adj, b, a, node);
        ReachVertex(adj, b, node);
      }
    }
  }

  /** Appending a component disjoint from the marked vertices keeps the
      components disjoint and their union equal to the marked set. */
  lemma UnionGrows(comps: seq<seq<int>>, comp: seq<int>, visited: set<int>, visited': set<int>)
    requires visited == Union(comps) && Disjoint(comps)
    requires forall x :: x in visited' <==> x in visited || x in comp
    requires forall k :: 0 <= k < |comp| ==> comp[k] !in visited
    ensures visited' == Union(comps + [comp]) && Disjoint(comps + [comp])
  {
    var comps' := comps + [comp];
    assert comps'[..|comps|] == comps;
    UnionAppend(comps, comp);
    forall x ensures x in visited' <==> x in visited + Elems(comp) {
      assert x in comp <==> x in Elems(comp);
    }
    forall i, j | 0 <= i < j < |comps'|
      ensures Elems(comps'[i]) !! Elems(comps'[j])
    {
      if j == |comps| {
        forall x | x in comps[i] ensures x !in comp {
          UnionContains(comps, i, x);
        }
      }
    }
  }

  lemma CompIsScc(g: Digraph, stack: seq<int>, k: int, visited: set<int>, comps: seq<seq<int>>,
                  visited': set<int>, comp: seq<int>)
    requires Valid(g) && FinishStack(g.adj, stack)
    requires SecondPass(g.adj, stack, k, visited, comps) && k > 0 && stack[k - 1] !in visited
    requires CollectPost(g.adjT, stack[k - 1], visited, visited', comp)
    ensures IsScc(g.adj, comp)
  {
    var adj, adjT, node := g.adj, g.adjT, stack[k - 1];
    forall x ensures x in comp <==> IsVertex(adj, x) && Mutual(adj, x, node) {
      if x in comp {
        InComp(g, stack, k, visited, visited', comp, x);
      }
      if IsVertex(adj, x) && Mutual(adj, x, node) {
        MutualInComp(g, node, visited, visited', comp, x);
      }
    }
  }

  /** A collected vertex reaches the start vertex; were it not reached back,
      a member of its component would finish later, hence already be marked,
      and so would it. */
  lemma InComp(g: Digraph, stack: seq<int>, k: int, visited: set<int>,
               visited': set<int>, comp: seq<int>, x: int)
    requires Valid(g) && FinishStack(g.adj, stack)
    requires 0 < k <= |stack| && stack[k - 1] !in visited
    requires forall i :: k <= i < |stack| ==> stack[i] in visited
    requires MutualClosed(g.adj, visited)
    requires CollectPost(g.adjT, stack[k - 1], visited, visited', comp)
    requires x in comp
    ensures IsVertex(g.adj, x) && Mutual(g.adj, x, stack[k - 1])
  {
    var adj, node := g.adj, stack[k - 1];
    var t :| 0 <= t < |comp| && comp[t] == x;
    ReachTranspose(adj, g.adjT, node, x);
    ReachVertex(adj, x, node);
    ReachRefl(adj, x);
    forall j | 0 <= j < |stack| && node in stack[..j]
      ensures !Mutual(adj, stack[j], x)
    {
      var s :| 0 <= s < j && stack[..j][s] == node;
      assert stack[s] == node;
      assert stack[j] in visited;
    }
    LaterInComponent(adj, stack, x, node, IndexOf(stack, x));
  }

  /** A vertex of the start vertex's component is reached in the transpose;
      the search stops only at marked vertices, and none of those lies in
      that component. */
  lemma MutualInComp(g: Digraph, node: int, visited: set<int>, visited': set<int>, comp: seq<int>, x: int)
    requires Valid(g) && MutualClosed(g.adj, visited) && node !in visited
    requires CollectPost(g.adjT, node, visited, visited', comp)
    requires Mutual(g.adj, x, node)
    ensures x in comp
  {
    var adj, adjT := g.adj, g.adjT;
    var F := Elems(comp);
    ReachTranspose(adj, adjT, node, x);
    var p :| IsPath(adjT, p) && p[0] == node && p[|p| - 1] == x;
    assert p[0] in F;
    ExitPath(adjT, F, visited', p);
    if x !in F {
      var m :| 0 < m < |p| && p[m] in visited' && p[m] !in F &&
               Reach(adjT, p[0], p[m]) && Reach(adjT, p[m], p[|p| - 1]);
      var y := p[m];
      ReachTranspose(adj, adjT, node, y);
      ReachTranspose(adj, adjT, y, x);
      ReachTrans(adj, node, x, y);
      assert Mutual(adj, y, node);
    }
  }
}
