/** The finish-order depth-first search that graph-01-Toposort-Kahns.cpp
    (`topologicalSortDFSUtil`) and graph-SCC-Kosaraju.cpp (`dfs`) share
    line for line: mark the vertex, recurse into every unvisited neighbour,
    then push the vertex. The `vector<bool>` of visited flags is a set and
    the `stack<int>` a sequence whose last element is the top.

    The meaning of the resulting stack is `FinishOrder`: when a vertex is
    pushed, everything it reaches is either already pushed or reachable from
    a vertex of its own strongly connected component that is pushed later. */
module Dfs {
  import opened Graph
  import opened Seqs

  predicate InRange(s: seq<int>, n: int) {
    forall i :: 0 <= i < |s| ==> 0 <= s[i] < n
  }

  function Elems(s: seq<int>): set<int> {
    set x | x in s
  }

  /** Every successor of a pushed (finished) vertex has been visited. */
  ghost predicate Closed(adj: Adj, stack: seq<int>, visited: set<int>) {
    forall a, b :: a in stack && Edge(adj, a, b) ==> b in visited
  }

  /** The last vertex of `pre` was pushed with everything it reaches either
      pushed already or reachable from a later-pushed vertex of its component. */
  ghost predicate Finished(adj: Adj, pre: seq<int>)
    requires |pre| > 0
  {
    var v := pre[|pre| - 1];
    forall y :: Descendant(adj, v, y) ==>
      y in pre || exists g :: Mutual(adj, g, v) && g !in pre && Reach(adj, g, y)
  }

  /** `Reach` under a name of its own, so that the quantifier in `Finished`
      is instantiated only where a caller asks for it: the `Reach` terms in
      its conclusion would otherwise instantiate it again. */
  ghost predicate Descendant(adj: Adj, v: int, y: int) {
    Reach(adj, v, y)
  }

  ghost predicate FinishedAt(adj: Adj, stack: seq<int>, i: int)
    requires 0 <= i < |stack|
  {
    Finished(adj, stack[..i + 1])
  }

  ghost predicate FinishOrder(adj: Adj, stack: seq<int>) {
    forall i :: 0 <= i < |stack| ==> FinishedAt(adj, stack, i)
  }

  lemma FinishOrderPush(adj: Adj, stack: seq<int>, v: int)
    requires FinishOrder(adj, stack) && Finished(adj, stack + [v])
    ensures FinishOrder(adj, stack + [v])
  {
    var s := stack + [v];
    forall i | 0 <= i < |s|
      ensures FinishedAt(adj, s, i)
    {
      if i < |stack| {
        assert FinishedAt(adj, stack, i);
        assert s[..i + 1] == stack[..i + 1];
      } else {
        assert s[..i + 1] == s;
      }
    }
  }

  /** A path leaving a set F of vertices whose successors are all visited
      ends in F or passes through a visited vertex outside F. */
  lemma {:induction false} ExitPath(adj: Adj, F: set<int>, vis: set<int>, p: seq<int>)
    requires WellFormed(adj) && IsPath(adj, p) && p[0] in F && F <= vis
    requires forall a, b :: a in F && Edge(adj, a, b) ==> b in vis
    ensures p[|p| - 1] in F ||
            exists m :: 0 < m < |p| && p[m] in vis && p[m] !in F &&
                        Reach(adj, p[0], p[m]) && Reach(adj, p[m], p[|p| - 1])
    decreases |p|
  {
    if |p| > 1 {
      var q := p[..|p| - 1];
      assert IsPath(adj, q);
      ExitPath(adj, F, vis, q);
      var last := |p| - 1;
      assert Edge(adj, p[last - 1], p[last]);
      if q[|q| - 1] in F {
        if p[last] !in F {
          PathReach(adj, p, 0, last);
          ReachRefl(adj, p[last]);
        }
      } else {
        var m :| 0 < m < |q| && q[m] in vis && q[m] !in F &&
                 Reach(adj, q[0], q[m]) && Reach(adj, q[m], q[|q| - 1]);
        ReachExtend(adj, q[m], q[|q| - 1], p[last]);
        assert p[m] == q[m];
      }
    }
  }

  /** What `dfs(v, visited, st)` needs: v is unvisited, the stack lists
      visited vertices once each, every visited vertex not yet on the stack
      (an ancestor of v in the search) reaches v, and the pushed vertices are
      closed and in finish order. */
  ghost predicate VisitPre(adj: Adj, v: int, visited: set<int>, stack: seq<int>) {
    && WellFormed(adj) && IsVertex(adj, v) && v !in visited && visited <= Range(|adj|)
    && InRange(stack, |adj|) && Distinct(stack) && Elems(stack) <= visited
    && (forall g :: g in visited && g !in stack ==> Reach(adj, g, v))
    && Closed(adj, stack, visited) && FinishOrder(adj, stack)
  }

  /** What `dfs(v, visited, st)` achieves: the stack grows by exactly the
      newly visited vertices, once each, with v last; all of them are
      reachable from v; the pushed vertices stay closed and in finish order. */
  ghost predicate VisitPost(adj: Adj, v: int, visited: set<int>, stack: seq<int>,
                            visited': set<int>, stack': seq<int>) {
    && visited <= visited' <= Range(|adj|)
    && |stack'| > |stack| && stack'[..|stack|] == stack && stack'[|stack'| - 1] == v
    && InRange(stack', |adj|) && Distinct(stack')
    && (forall x :: x in visited' <==> x in visited || x in stack'[|stack|..])
    && (forall k :: |stack| <= k < |stack'| ==> stack'[k] !in visited && Reach(adj, v, stack'[k]))
    && Closed(adj, stack', visited') && FinishOrder(adj, stack')
  }

  /** The state of the neighbour loop of `dfs(v)`: vis and st extend the
      caller's visited set and stack by v and by the vertices finished so far. */
  ghost predicate Frame(adj: Adj, v: int, visited: set<int>, stack: seq<int>, vis: set<int>, st: seq<int>) {
    && visited + {v} <= vis <= Range(|adj|)
    && |st| >= |stack| && st[..|stack|] == stack
    && InRange(st, |adj|) && Distinct(st) && v !in st
    && (forall x :: x in vis <==> x in visited || x == v || x in st[|stack|..])
    && (forall k :: |stack| <= k < |st| ==> st[k] !in visited && Reach(adj, v, st[k]))
    && Closed(adj, st, vis) && FinishOrder(adj, st)
  }

  /** `dfs(v, visited, st)`. */
  method Visit(adj: Adj, v: int, visited: set<int>, stack: seq<int>)
    returns (visited': set<int>, stack': seq<int>)
    requires VisitPre(adj, v, visited, stack)
    ensures VisitPost(adj, v, visited, stack, visited', stack')
    decreases |adj| - |visited|, 1
  {
    var vis := visited + {v};
    var st := stack;
    FrameStart(adj, v, visited, stack);
    var j := 0;
    while j < |adj[v]|
      invariant 0 <= j <= |adj[v]|
      invariant Frame(adj, v, visited, stack, vis, st)
      invariant Scanned(adj, v, j, vis)
    {
      vis, st := VisitNeighbour(adj, v, visited, stack, vis, st, adj[v][j]);
      j := j + 1;
    }
    visited', stack' := vis, st + [v];
    VisitDone(adj, v, visited, stack, vis, st);
  }

  /** One turn of the neighbour loop of `dfs(v)`: recurse into u unless it
      has been visited already. */
  method VisitNeighbour(adj: Adj, v: int, visited: set<int>, stack: seq<int>,
                        vis: set<int>, st: seq<int>, u: int)
    returns (vis2: set<int>, st2: seq<int>)
    requires VisitPre(adj, v, visited, stack) && Frame(adj, v, visited, stack, vis, st)
    requires u in adj[v]
    ensures Frame(adj, v, visited, stack, vis2, st2)
    ensures vis <= vis2 && u in vis2
    decreases |adj| - |visited|, 0
  {
    if u in vis {
      return vis, st;
    }
    Shrinks(adj, v, visited, vis);
    ChildPre(adj, v, visited, stack, vis, st, u);
    vis2, st2 := Visit(adj, u, vis, st);
    ChildDone(adj, v, visited, stack, vis, st, u, vis2, st2);
  }

  /** On entry to `dfs(v)` only v itself has been added. */
  lemma FrameStart(adj: Adj, v: int, visited: set<int>, stack: seq<int>)
    requires VisitPre(adj, v, visited, stack)
    ensures Frame(adj, v, visited, stack, visited + {v}, stack)
  {
    assert stack[..|stack|] == stack;
    assert stack[|stack|..] == [];
  }

  /** The first j neighbours of v have been visited. */
  predicate Scanned(adj: Adj, v: int, j: int, vis: set<int>)
    requires 0 <= v < |adj| && 0 <= j <= |adj[v]|
  {
    forall k :: 0 <= k < j ==> adj[v][k] in vis
  }

  /** Visiting v strictly grows the visited set, which bounds the recursion. */
  lemma Shrinks(adj: Adj, v: int, visited: set<int>, vis: set<int>)
    requires visited + {v} <= vis <= Range(|adj|) && v !in visited
    ensures 0 <= |adj| - |vis| < |adj| - |visited|
  {
    SubsetRangeCard(vis, |adj|);
    assert vis == (visited + {v}) + (vis - (visited + {v}));
  }

  /** Before recursing into an unvisited neighbour u of v: every visited
      vertex off the stack is v or an ancestor of v, so it reaches u. */
  lemma ChildPre(adj: Adj, v: int, visited: set<int>, stack: seq<int>, vis: set<int>, st: seq<int>, u: int)
    requires VisitPre(adj, v, visited, stack) && Frame(adj, v, visited, stack, vis, st)
    requires u in adj[v] && u !in vis
    ensures VisitPre(adj, u, vis, st)
  {
    forall g | g in vis && g !in st
      ensures Reach(adj, g, u)
    {
      if g == v {
        ReachRefl(adj, v);
      } else {
        assert g in visited;
        assert g !in stack;
      }
      ReachExtend(adj, g, v, u);
    }
    forall x | x in Elems(st) ensures x in vis {
      var k :| 0 <= k < |st| && st[k] == x;
      if k < |stack| {
        assert stack[k] == x;
      } else {
        assert x in st[|stack|..];
      }
    }
  }

  /** After the recursive call on a neighbour the loop state is restored. */
  lemma ChildDone(adj: Adj, v: int, visited: set<int>, stack: seq<int>, vis: set<int>, st: seq<int>,
                  u: int, vis2: set<int>, st2: seq<int>)
    requires VisitPre(adj, v, visited, stack) && Frame(adj, v, visited, stack, vis, st)
    requires u in adj[v]
    requires VisitPost(adj, u, vis, st, vis2, st2)
    ensures Frame(adj, v, visited, stack, vis2, st2)
  {
    assert st2 == st + st2[|st|..];
    assert st2[..|stack|] == stack;
    ReachExtend(adj, v, v, u) by { ReachRefl(adj, v); }
    forall x ensures x in vis2 <==> x in visited || x == v || x in st2[|stack|..] {
      assert st2[|stack|..] == st[|stack|..] + st2[|st|..];
    }
    forall k | |stack| <= k < |st2| ensures st2[k] !in visited && Reach(adj, v, st2[k]) {
      if k < |st| {
        assert st2[k] == st[k];
      } else {
        ReachTrans(adj, v, u, st2[k]);
      }
    }
  }

  /** After the neighbour loop, pushing v establishes the postcondition. */
  lemma VisitDone(adj: Adj, v: int, visited: set<int>, stack: seq<int>, vis: set<int>, st: seq<int>)
    requires VisitPre(adj, v, visited, stack) && Frame(adj, v, visited, stack, vis, st)
    requires Scanned(adj, v, |adj[v]|, vis)
    ensures VisitPost(adj, v, visited, stack, vis, st + [v])
  {
    var st' := st + [v];
    PushFinished(adj, visited, stack, v, vis, st);
    FinishOrderPush(adj, st, v);
    assert st'[..|stack|] == stack by {
      assert st'[..|stack|] == st[..|stack|];
    }
    forall x ensures x in vis <==> x in visited || x in st'[|stack|..] {
      assert st'[|stack|..] == st[|stack|..] + [v];
    }
    forall k | |stack| <= k < |st'| ensures st'[k] !in visited && Reach(adj, v, st'[k]) {
      if k == |st| {
        ReachRefl(adj, v);
      }
    }
    forall a, b | a in st' && Edge(adj, a, b) ensures b in vis {
      if a == v {
        var k :| 0 <= k < |adj[v]| && adj[v][k] == b;
      }
    }
  }

  /** When v is pushed, everything v reaches is pushed already, or is reached
      from a visited, unpushed vertex, which is an ancestor of v and so lies in
      v's component and is pushed later. */
  lemma PushFinished(adj: Adj, visited: set<int>, stack: seq<int>, v: int, vis: set<int>, st: seq<int>)
    requires WellFormed(adj) && IsVertex(adj, v)
    requires forall g :: g in visited && g !in stack ==> Reach(adj, g, v)
    requires Elems(stack) <= visited
    requires |st| >= |stack| && st[..|stack|] == stack
    requires forall x :: x in vis <==> x in visited || x == v || x in st[|stack|..]
    requires Closed(adj, st, vis)
    requires forall k :: 0 <= k < |adj[v]| ==> adj[v][k] in vis
    ensures Finished(adj, st + [v])
  {
    var pre := st + [v];
    var F := Elems(pre);
    forall x | x in F ensures x in vis {
      if x != v {
        var k :| 0 <= k < |st| && st[k] == x;
        if k < |stack| {
          assert stack[k] == x;
        } else {
          assert x in st[|stack|..];
        }
      }
    }
    forall a, b | a in F && Edge(adj, a, b)
      ensures b in vis
    {
      if a == v {
        var k :| 0 <= k < |adj[v]| && adj[v][k] == b;
      } else {
        assert a in st;
      }
    }
    forall y | Descendant(adj, v, y)
      ensures y in pre || exists g :: Mutual(adj, g, v) && g !in pre && Reach(adj, g, y)
    {
      var p :| IsPath(adj, p) && p[0] == v && p[|p| - 1] == y;
      ExitPath(adj, F, vis, p);
      if y !in F {
        var m :| 0 < m < |p| && p[m] in vis && p[m] !in F &&
                 Reach(adj, p[0], p[m]) && Reach(adj, p[m], p[|p| - 1]);
        var g := p[m];
        assert g !in st;
        assert g in visited && g !in stack;
        assert Mutual(adj, g, v);
      }
    }
  }

  // ---------------------------------------------------------------------
  // The outer loop

  /** The state between two searches of the outer loop: exactly the visited
      vertices are on the stack, once each, closed and in finish order. */
  ghost predicate Between(adj: Adj, visited: set<int>, stack: seq<int>) {
    && WellFormed(adj) && visited <= Range(|adj|)
    && Elems(stack) == visited && InRange(stack, |adj|) && Distinct(stack)
    && Closed(adj, stack, visited) && FinishOrder(adj, stack)
  }

  /** The loop of `topologicalSortDFS` (and of `findSCCs`' first step): a
      search from every vertex not yet visited. The stack ends up holding
      every vertex exactly once, in finish order. */
  method DfsAll(adj: Adj) returns (stack: seq<int>)
    requires WellFormed(adj)
    ensures |stack| == |adj| && InRange(stack, |adj|) && Distinct(stack)
    ensures forall v :: 0 <= v < |adj| ==> v in stack
    ensures FinishOrder(adj, stack)
  {
    var visited: set<int> := {};
    stack := [];
    var i := 0;
    while i < |adj|
      invariant 0 <= i <= |adj| && Range(i) <= visited
      invariant Between(adj, visited, stack)
    {
      if i !in visited {
        TopPre(adj, i, visited, stack);
        var visited', stack' := Visit(adj, i, visited, stack);
        TopVisit(adj, i, visited, stack, visited', stack');
        visited, stack := visited', stack';
      }
      i := i + 1;
    }
    AllVisited(|adj|, visited, stack);
  }

  lemma TopPre(adj: Adj, v: int, visited: set<int>, stack: seq<int>)
    requires Between(adj, visited, stack) && IsVertex(adj, v) && v !in visited
    ensures VisitPre(adj, v, visited, stack)
  {
  }

  /** A search started from the outer loop leaves no visited vertex off the stack. */
  lemma TopVisit(adj: Adj, v: int, visited: set<int>, stack: seq<int>, visited': set<int>, stack': seq<int>)
    requires Between(adj, visited, stack)
    requires VisitPost(adj, v, visited, stack, visited', stack')
    ensures Between(adj, visited', stack') && visited <= visited' && v in visited'
  {
    assert stack' == stack + stack'[|stack|..];
    assert stack'[|stack'| - 1] in stack'[|stack|..];
  }

  lemma AllVisited(n: nat, visited: set<int>, stack: seq<int>)
    requires Elems(stack) == visited && Distinct(stack) && Range(n) <= visited <= Range(n)
    ensures |stack| == n && forall v :: 0 <= v < n ==> v in stack
  {
    assert visited == Range(n);
    DistinctCard(stack);
    assert |Elems(stack)| == |stack|;
    RangeCard(n);
    forall v | 0 <= v < n ensures v in stack {
      assert v in Range(n);
      assert v in Elems(stack);
    }
  }
}
