/** graph-Articulationpoints-Tarjan.cpp: Tarjan's articulation points on an
    undirected graph. A depth-first search from every undiscovered vertex
    stamps each vertex with a discovery time `disc`, computes `low` from the
    children's `low` values and the discovery times of non-parent
    neighbours, and flags u when it is a search root with more than one
    child, or a non-root with a child v where `low[v] >= disc[u]`. */
module Articulation {
  import opened Graph
  import opened Seqs

  /** The object's arrays and its `time` counter. */
  datatype State = State(disc: seq<int>, low: seq<int>, parent: seq<int>, ap: seq<bool>, time: int)

  predicate Sized(n: int, s: State) {
    |s.disc| == n && |s.low| == n && |s.parent| == n && |s.ap| == n
  }

  /** The constructor: every array entry -1 (or false), time 0. */
  function Init(n: nat): (r: State)
    ensures Sized(n, r) && r.time == 0
    ensures forall v :: 0 <= v < n ==> r.disc[v] == -1 && r.low[v] == -1 && r.parent[v] == -1 && !r.ap[v]
  {
    State(seq(n, _ => -1), seq(n, _ => -1), seq(n, _ => -1), seq(n, _ => false), 0)
  }

  /** The constructed object is a valid state with nothing discovered. */
  lemma InitValid(adj: Adj)
    requires WellFormed(adj)
    ensures Valid(adj, Init(|adj|), []) && AllDone(adj, Init(|adj|))
  {
  }

  /** a lies on v's chain of parents (v itself included), each link going
      to a vertex discovered earlier: in the search forest, v is a
      descendant of a. */
  ghost predicate Above(parent: seq<int>, disc: seq<int>, a: int, v: int)
    decreases if 0 <= v < |disc| then disc[v] else 0
  {
    || v == a
    || (&& 0 <= v < |parent| && |disc| == |parent| && 0 <= parent[v] < |parent|
        && 0 <= disc[parent[v]] < disc[v] && Above(parent, disc, a, parent[v]))
  }

  /** Every discovered vertex keeps its parent and timestamp. */
  predicate Frozen(s: State, s': State) {
    && |s.disc| == |s.parent| == |s'.disc| == |s'.parent|
    && forall x :: 0 <= x < |s.disc| && s.disc[x] != -1 ==> s'.parent[x] == s.parent[x] && s'.disc[x] == s.disc[x]
  }

  /** A chain of discovered vertices survives any step that freezes them. */
  lemma {:induction false} AboveKeep(s: State, s': State, a: int, v: int)
    requires Frozen(s, s') && Above(s.parent, s.disc, a, v)
    ensures Above(s'.parent, s'.disc, a, v)
    decreases if 0 <= v < |s.disc| then s.disc[v] else 0
  {
    if v != a {
      AboveKeep(s, s', a, s.parent[v]);
    }
  }

  /** Descent is transitive. */
  lemma {:induction false} AboveTrans(parent: seq<int>, disc: seq<int>, a: int, b: int, c: int)
    requires Above(parent, disc, a, b) && Above(parent, disc, b, c)
    ensures Above(parent, disc, a, c)
    decreases if 0 <= c < |disc| then disc[c] else 0
  {
    if c != b {
      AboveTrans(parent, disc, a, b, parent[c]);
    }
  }

  /** A root lies below nothing but itself. */
  lemma RootAbove(parent: seq<int>, disc: seq<int>, a: int, v: int)
    requires 0 <= v < |parent| && parent[v] == -1
    ensures Above(parent, disc, a, v) <==> a == v
  {
  }

  /** `parent[v]` is a discovered neighbour of v, discovered before v. */
  predicate TreeEdge(adj: Adj, s: State, v: int)
    requires Sized(|adj|, s) && 0 <= v < |adj|
  {
    && 0 <= s.parent[v] < |adj| && v in adj[s.parent[v]]
    && s.disc[v] != -1 && s.disc[s.parent[v]] != -1 && s.disc[s.parent[v]] < s.disc[v]
  }

  /** The state at every call boundary. order lists the discovered vertices
      in discovery order, and `disc` is each one's position plus one. */
  ghost predicate Valid(adj: Adj, s: State, order: seq<int>) {
    && WellFormed(adj) && Sized(|adj|, s)
    && |order| == s.time && Distinct(order)
    && (forall i :: 0 <= i < |order| ==> 0 <= order[i] < |adj| && s.disc[order[i]] == i + 1)
    && (forall v :: 0 <= v < |adj| && s.disc[v] != -1 ==> v in order)
    && (forall v :: 0 <= v < |adj| && s.disc[v] == -1 ==> s.parent[v] == -1 && !s.ap[v])
    && Parented(adj, s)
  }

  predicate Parented(adj: Adj, s: State)
    requires Sized(|adj|, s)
  {
    forall v :: 0 <= v < |adj| && s.parent[v] != -1 ==> TreeEdge(adj, s, v)
  }

  /** Valid does not look at `low`, nor at `ap` of discovered vertices. */
  lemma ValidKeep(adj: Adj, s: State, order: seq<int>, s': State)
    requires Valid(adj, s, order) && Sized(|adj|, s')
    requires s'.disc == s.disc && s'.parent == s.parent && s'.time == s.time
    requires forall v :: 0 <= v < |adj| && s.disc[v] == -1 ==> !s'.ap[v]
    ensures Valid(adj, s', order)
  {
    assert Parented(adj, s);
    forall v | 0 <= v < |adj| && s'.parent[v] != -1
      ensures TreeEdge(adj, s', v)
    {
      assert TreeEdge(adj, s, v);
    }
  }

  // ---------------------------------------------------------------------
  // What holds of a vertex once its dfs call has returned

  /** The low equation, over u's children and over the first j entries of
      u's list: `low[u]` is no larger than each child's `low` and each
      non-parent neighbour's `disc`, and equals `disc[u]` or one of those. */
  predicate LowOk(adj: Adj, s: State, u: int, j: int)
    requires WellFormed(adj) && Sized(|adj|, s) && 0 <= u < |adj| && 0 <= j <= |adj[u]|
  {
    && (forall v :: 0 <= v < |adj| && s.parent[v] == u ==> s.low[u] <= s.low[v])
    && (forall k :: 0 <= k < j && adj[u][k] != s.parent[u] ==> s.low[u] <= s.disc[adj[u][k]])
    && (|| s.low[u] == s.disc[u]
        || (exists v :: 0 <= v < |adj| && s.parent[v] == u && s.low[u] == s.low[v])
        || (exists k :: 0 <= k < j && adj[u][k] != s.parent[u] && s.low[u] == s.disc[adj[u][k]]))
  }

  /** u has two different children. */
  predicate TwoChildren(parent: seq<int>, u: int) {
    exists v, w :: 0 <= v < |parent| && 0 <= w < |parent| && v != w && parent[v] == u && parent[w] == u
  }

  /** The two flagging rules: a root is flagged iff it has two children; a
      non-root u iff some child v has `low[v] >= disc[u]`. */
  predicate RuleOk(adj: Adj, s: State, u: int)
    requires Sized(|adj|, s) && 0 <= u < |adj|
  {
    && (s.parent[u] == -1 ==> (s.ap[u] <==> TwoChildren(s.parent, u)))
    && (s.parent[u] != -1 ==>
          (s.ap[u] <==> exists v :: 0 <= v < |adj| && s.parent[v] == u && s.low[v] >= s.disc[u]))
  }

  /** Every neighbour discovered after u lies below u in the search
      forest: the search leaves no edge between two unrelated subtrees. */
  ghost predicate NoCross(adj: Adj, s: State, u: int)
    requires WellFormed(adj) && Sized(|adj|, s) && 0 <= u < |adj|
  {
    forall k {:trigger Above(s.parent, s.disc, u, adj[u][k])} ::
      0 <= k < |adj[u]| && s.disc[u] < s.disc[adj[u][k]] ==> Above(s.parent, s.disc, u, adj[u][k])
  }

  /** u's call has returned: all its neighbours are discovered, the later
      ones below it, and its `low` and flag are final. */
  ghost predicate DoneOk(adj: Adj, s: State, u: int)
    requires WellFormed(adj) && Sized(|adj|, s) && 0 <= u < |adj|
  {
    && s.disc[u] != -1 && 1 <= s.low[u] <= s.disc[u]
    && (forall k :: 0 <= k < |adj[u]| ==> s.disc[adj[u][k]] != -1)
    && NoCross(adj, s, u)
    && LowOk(adj, s, u, |adj[u]|) && RuleOk(adj, s, u)
  }

  // ---------------------------------------------------------------------
  // How a call may change the state

  /** Discovered vertices other than x keep all their entries; x keeps its
      `disc` and `parent`. */
  predicate Unchanged(adj: Adj, s: State, s': State, x: int)
    requires Sized(|adj|, s) && Sized(|adj|, s')
  {
    && s.time <= s'.time
    && (forall v :: 0 <= v < |adj| && s.disc[v] != -1 && v != x ==>
          s'.disc[v] == s.disc[v] && s'.low[v] == s.low[v] && s'.parent[v] == s.parent[v] && s'.ap[v] == s.ap[v])
    && (0 <= x < |adj| ==> s'.disc[x] == s.disc[x] && s'.parent[x] == s.parent[x])
  }

  /** Only r may have got parent x; any other changed parent is a vertex
      that was undiscovered; and a newly discovered vertex got a timestamp
      later than `s.time`. */
  predicate NewParents(adj: Adj, s: State, s': State, r: int, x: int)
    requires Sized(|adj|, s) && Sized(|adj|, s')
  {
    && (forall v :: 0 <= v < |adj| && s'.parent[v] != s.parent[v] ==>
          (v == r && s'.parent[v] == x) || (0 <= s'.parent[v] < |adj| && s.disc[s'.parent[v]] == -1))
    && (forall v :: 0 <= v < |adj| && s.disc[v] == -1 && s'.disc[v] != -1 ==> s.time < s'.disc[v])
  }

  /** A finished vertex d stays finished across a change that leaves d, its
      children and its neighbours alone: x, the one discovered vertex whose
      `low` and `ap` may change, is neither d nor a child of d. */
  lemma Stable(adj: Adj, s: State, s': State, x: int, r: int, d: int)
    requires WellFormed(adj) && Sized(|adj|, s) && Sized(|adj|, s') && 0 <= d < |adj|
    requires DoneOk(adj, s, d) && d != x && !(0 <= x < |adj| && s.parent[x] == d)
    requires Parented(adj, s)
    requires Unchanged(adj, s, s', x) && NewParents(adj, s, s', r, x)
    ensures DoneOk(adj, s', d)
  {
    forall v | 0 <= v < |adj|
      ensures s'.parent[v] == d <==> s.parent[v] == d
    {
      if s.parent[v] == d {
        assert TreeEdge(adj, s, v);
        assert s.disc[v] != -1 && v != x;
      }
    }
    forall k | 0 <= k < |adj[d]|
      ensures s'.disc[adj[d][k]] == s.disc[adj[d][k]]
    {
      assert s.disc[adj[d][k]] != -1;
    }
    forall v | 0 <= v < |adj| && s.parent[v] == d
      ensures s'.low[v] == s.low[v]
    {
      assert TreeEdge(adj, s, v);
      assert s.disc[v] != -1 && v != x;
    }
    assert TwoChildren(s'.parent, d) <==> TwoChildren(s.parent, d);
    assert Frozen(s, s');
    forall k | 0 <= k < |adj[d]| && s'.disc[d] < s'.disc[adj[d][k]]
      ensures Above(s'.parent, s'.disc, d, adj[d][k])
    {
      AboveKeep(s, s', d, adj[d][k]);
    }
  }

  /** The vertices discovered since `dfs(u)` started in s0, other than u,
      are finished. */
  ghost predicate DoneBelow(adj: Adj, u: int, s0: State, s: State)
    requires WellFormed(adj) && Sized(|adj|, s0) && Sized(|adj|, s)
  {
    forall v :: 0 <= v < |adj| && s0.disc[v] == -1 && s.disc[v] != -1 && v != u ==> DoneOk(adj, s, v)
  }

  /** Changing only u's `low` and `ap` keeps the vertices below u finished:
      none of them is u or u's parent. */
  lemma KeepDone(adj: Adj, u: int, s0: State, s: State, s': State)
    requires WellFormed(adj) && Sized(|adj|, s0) && Sized(|adj|, s) && Sized(|adj|, s') && 0 <= u < |adj|
    requires DoneBelow(adj, u, s0, s) && Parented(adj, s)
    requires s.disc[u] == s0.time + 1
    requires forall v :: 0 <= v < |adj| && s0.disc[v] == -1 && s.disc[v] != -1 ==> s0.time < s.disc[v]
    requires s'.disc == s.disc && s'.parent == s.parent && s'.time == s.time
    requires forall x :: 0 <= x < |adj| && x != u ==> s'.low[x] == s.low[x] && s'.ap[x] == s.ap[x]
    ensures DoneBelow(adj, u, s0, s')
  {
    if s.parent[u] != -1 {
      assert TreeEdge(adj, s, u);
    }
    forall d | 0 <= d < |adj| && s0.disc[d] == -1 && s'.disc[d] != -1 && d != u
      ensures DoneOk(adj, s', d)
    {
      Stable(adj, s, s', u, -1, d);
    }
  }

  // ---------------------------------------------------------------------
  // The search

  /** `dfs(u)`, with the caller's `parent[u] = p` moved into it (nothing
      reads `parent[u]` between the two). */
  method Dfs(adj: Adj, u: int, p: int, s: State, ghost order: seq<int>) returns (s': State, ghost order': seq<int>)
    requires Valid(adj, s, order) && 0 <= u < |adj| && s.disc[u] == -1
    requires p == -1 || (0 <= p < |adj| && s.disc[p] != -1 && u in adj[p])
    ensures Valid(adj, s', order')
    ensures Unchanged(adj, s, s', -1) && NewParents(adj, s, s', u, p)
    ensures s'.disc[u] != -1 && s'.parent[u] == p
    ensures forall v :: 0 <= v < |adj| && s.disc[v] == -1 && s'.disc[v] != -1 ==> DoneOk(adj, s', v)
    ensures Below(adj, u, s, s')
    decreases |adj| - s.time, 3, 0
  {
    var t := s.time + 1;
    var s1 := State(s.disc[u := t], s.low[u := t], s.parent[u := p], s.ap, t);
    Discover(adj, u, p, s, order);
    s', order' := Scan(adj, u, p, s, s1, order + [u], 0, 0, []);
  }

  /** The loop `for (int v : adj[u])` of `dfs(u)`, from entry j on. */
  method Scan(adj: Adj, u: int, p: int, s0: State, s: State, ghost order: seq<int>, j: int,
              children: int, ghost kids: seq<int>)
    returns (s': State, ghost order': seq<int>)
    requires Scanning(adj, u, p, s0, s, order, j, children, kids)
    ensures Valid(adj, s', order')
    ensures Unchanged(adj, s0, s', -1) && NewParents(adj, s0, s', u, p)
    ensures s'.disc[u] != -1 && s'.parent[u] == p
    ensures forall v :: 0 <= v < |adj| && s0.disc[v] == -1 && s'.disc[v] != -1 ==> DoneOk(adj, s', v)
    ensures Below(adj, u, s0, s')
    decreases |adj| - s0.time, 2, |adj[u]| - j
  {
    if j == |adj[u]| {
      Finish(adj, u, p, s0, s, order, children, kids);
      s', order' := s, order;
    } else {
      var s1, o1, children1, kids1 := Neighbour(adj, u, p, s0, s, order, j, children, kids);
      s', order' := Scan(adj, u, p, s0, s1, o1, j + 1, children1, kids1);
    }
  }

  /** Part way through the loop of `dfs(u)`, entered in state s0. */
  ghost predicate Scanning(adj: Adj, u: int, p: int, s0: State, s: State, order: seq<int>, j: int,
                       children: int, kids: seq<int>)
  {
    && Valid(adj, s, order) && Sized(|adj|, s0) && 0 <= u < |adj| && 0 <= j <= |adj[u]|
    && s0.disc[u] == -1 && s.disc[u] == s0.time + 1 && s.parent[u] == p && s0.time < s.time
    && (p == -1 || (0 <= p < |adj| && s0.disc[p] != -1))
    && Unchanged(adj, s0, s, -1) && NewParents(adj, s0, s, u, p)
    && DoneBelow(adj, u, s0, s) && Stamped(s0) && Below(adj, u, s0, s)
    && 1 <= s.low[u] <= s.disc[u]
    && (forall k :: 0 <= k < j ==> s.disc[adj[u][k]] != -1)
    && LowOk(adj, s, u, j) && RuleOk(adj, s, u)
    && Kids(adj, s, u, children, kids)
  }

  /** No timestamp is later than `time`. */
  predicate Stamped(s: State) {
    forall v :: 0 <= v < |s.disc| && s.disc[v] != -1 ==> s.disc[v] <= s.time
  }

  /** A timestamp is a position in the discovery order, so at most `time`. */
  lemma ValidStamped(adj: Adj, s: State, order: seq<int>)
    requires Valid(adj, s, order)
    ensures Stamped(s)
  {
    forall v | 0 <= v < |adj| && s.disc[v] != -1
      ensures s.disc[v] <= s.time
    {
      var i :| 0 <= i < |order| && order[i] == v;
    }
  }

  /** Every vertex discovered since `dfs(u)` started in s0 lies below u. */
  ghost predicate Below(adj: Adj, u: int, s0: State, s: State)
    requires Sized(|adj|, s0) && Sized(|adj|, s)
  {
    forall v {:trigger Above(s.parent, s.disc, u, v)} ::
      0 <= v < |adj| && s0.disc[v] == -1 && s.disc[v] != -1 ==> Above(s.parent, s.disc, u, v)
  }

  /** kids lists u's children; `children` counts them. */
  ghost predicate Kids(adj: Adj, s: State, u: int, children: int, kids: seq<int>)
    requires Sized(|adj|, s)
  {
    && Distinct(kids) && children == |kids|
    && (forall i :: 0 <= i < |kids| ==> 0 <= kids[i] < |adj|)
    && forall v :: 0 <= v < |adj| ==> (s.parent[v] == u <==> v in kids)
  }

  /** A vertex stamped after `s0.time` was undiscovered in s0. */
  lemma Fresh(adj: Adj, s0: State, s: State, x: int)
    requires Sized(|adj|, s0) && Sized(|adj|, s) && 0 <= x < |adj|
    requires Unchanged(adj, s0, s, -1) && Stamped(s0) && s0.time < s.disc[x]
    ensures s0.disc[x] == -1
  {
  }

  /** The loop over `adj[u]` is done: u is finished too. */
  lemma Finish(adj: Adj, u: int, p: int, s0: State, s: State, order: seq<int>, children: int, kids: seq<int>)
    requires 0 <= u < |adj| && Scanning(adj, u, p, s0, s, order, |adj[u]|, children, kids)
    ensures Valid(adj, s, order)
    ensures Unchanged(adj, s0, s, -1) && NewParents(adj, s0, s, u, p)
    ensures s.disc[u] != -1 && s.parent[u] == p
    ensures forall v :: 0 <= v < |adj| && s0.disc[v] == -1 && s.disc[v] != -1 ==> DoneOk(adj, s, v)
    ensures Below(adj, u, s0, s)
  {
    forall k | 0 <= k < |adj[u]| && s.disc[u] < s.disc[adj[u][k]]
      ensures Above(s.parent, s.disc, u, adj[u][k])
    {
      Fresh(adj, s0, s, adj[u][k]);
    }
    assert DoneOk(adj, s, u);
  }

  /** `disc[u] = low[u] = ++time`. */
  lemma Discover(adj: Adj, u: int, p: int, s: State, order: seq<int>)
    requires Valid(adj, s, order) && 0 <= u < |adj| && s.disc[u] == -1
    requires p == -1 || (0 <= p < |adj| && s.disc[p] != -1 && u in adj[p])
    ensures Scanning(adj, u, p, s,
                 State(s.disc[u := s.time + 1], s.low[u := s.time + 1], s.parent[u := p], s.ap, s.time + 1),
                 order + [u], 0, 0, [])
  {
    var t := s.time + 1;
    var s1 := State(s.disc[u := t], s.low[u := t], s.parent[u := p], s.ap, t);
    DiscoverValid(adj, u, p, s, order);
    NoChildren(adj, u, p, s);
    ValidStamped(adj, s, order);
    assert Below(adj, u, s, s1);
    assert !TwoChildren(s1.parent, u);
    assert Kids(adj, s1, u, 0, []);
    assert LowOk(adj, s1, u, 0);
  }

  lemma DiscoverValid(adj: Adj, u: int, p: int, s: State, order: seq<int>)
    requires Valid(adj, s, order) && 0 <= u < |adj| && s.disc[u] == -1
    requires p == -1 || (0 <= p < |adj| && s.disc[p] != -1 && u in adj[p])
    ensures Valid(adj, State(s.disc[u := s.time + 1], s.low[u := s.time + 1], s.parent[u := p], s.ap, s.time + 1),
                  order + [u])
  {
    var t := s.time + 1;
    var s1 := State(s.disc[u := t], s.low[u := t], s.parent[u := p], s.ap, t);
    var o1 := order + [u];
    assert u !in order;
    if p != -1 {
      var i :| 0 <= i < |order| && order[i] == p;
    }
    forall v | 0 <= v < |adj| && s1.disc[v] != -1
      ensures v in o1
    {
      if v != u {
        assert v in order;
      }
    }
    assert Parented(adj, s);
    forall v | 0 <= v < |adj| && s1.parent[v] != -1
      ensures TreeEdge(adj, s1, v)
    {
      if v != u {
        assert TreeEdge(adj, s, v);
      }
    }
  }

  /** A vertex just discovered has no children. */
  lemma NoChildren(adj: Adj, u: int, p: int, s: State)
    requires Sized(|adj|, s) && Parented(adj, s) && 0 <= u < |adj| && s.disc[u] == -1 && p != u
    ensures forall v :: 0 <= v < |adj| && v != u ==> s.parent[v] != u
  {
    forall v | 0 <= v < |adj| && v != u && s.parent[v] != -1
      ensures s.parent[v] != u
    {
      assert TreeEdge(adj, s, v);
    }
  }

  /** One iteration of the loop over `adj[u]`. */
  method Neighbour(adj: Adj, u: int, p: int, s0: State, s: State, ghost order: seq<int>, j: int,
                   children: int, ghost kids: seq<int>)
    returns (s': State, ghost order': seq<int>, children': int, ghost kids': seq<int>)
    requires Scanning(adj, u, p, s0, s, order, j, children, kids) && j < |adj[u]|
    ensures Scanning(adj, u, p, s0, s', order', j + 1, children', kids')
    ensures s'.low[u] <= s.low[u] && (s.ap[u] ==> s'.ap[u])
    decreases |adj| - s0.time, 1, 0
  {
    var v := adj[u][j];
    if s.disc[v] == -1 {
      s', order', children', kids' := Child(adj, u, p, s0, s, order, j, children, kids);
    } else if v != s.parent[u] {
      var lowU := if s.disc[v] < s.low[u] then s.disc[v] else s.low[u];
      s' := s.(low := s.low[u := lowU]);
      order', children', kids' := order, children, kids;
      BackEdge(adj, u, p, s0, s, order, j, children, kids);
    } else {
      s', order', children', kids' := s, order, children, kids;
      SkipParent(adj, u, p, s0, s, order, j, children, kids);
    }
  }

  /** The neighbour is u's own parent: nothing changes. */
  lemma SkipParent(adj: Adj, u: int, p: int, s0: State, s: State, order: seq<int>, j: int,
                   children: int, kids: seq<int>)
    requires Scanning(adj, u, p, s0, s, order, j, children, kids) && j < |adj[u]|
    requires s.disc[adj[u][j]] != -1 && adj[u][j] == s.parent[u]
    ensures Scanning(adj, u, p, s0, s, order, j + 1, children, kids)
  {
    assert LowOk(adj, s, u, j + 1);
  }

  /** An undiscovered neighbour v: `parent[v] = u`, `dfs(v)`, then
      `low[u] = min(low[u], low[v])` and the two flagging rules. */
  method Child(adj: Adj, u: int, p: int, s0: State, s: State, ghost order: seq<int>, j: int,
               children: int, ghost kids: seq<int>)
    returns (s': State, ghost order': seq<int>, children': int, ghost kids': seq<int>)
    requires Scanning(adj, u, p, s0, s, order, j, children, kids) && j < |adj[u]|
    requires s.disc[adj[u][j]] == -1
    ensures Scanning(adj, u, p, s0, s', order', j + 1, children', kids')
    ensures s'.low[u] <= s.low[u] && (s.ap[u] ==> s'.ap[u])
    decreases |adj| - s0.time, 0, 0
  {
    var v := adj[u][j];
    DistinctRangeLength(order, |adj|);
    var s1, o1 := Dfs(adj, v, u, s, order);
    children' := children + 1;
    kids' := kids + [v];
    var lowU := if s1.low[v] < s1.low[u] then s1.low[v] else s1.low[u];
    var apU := s1.ap[u] || (s1.parent[u] == -1 && children' > 1) || (s1.parent[u] != -1 && s1.low[v] >= s1.disc[u]);
    s' := s1.(low := s1.low[u := lowU], ap := s1.ap[u := apU]);
    order' := o1;
    assert TreeEdge(adj, s1, v) by {
      assert Parented(adj, s1);
    }
    ChildBelow(adj, u, v, s0, s, s1, s');
    TreeChild(adj, u, p, s0, s, order, j, children, kids, s1, o1, s');
  }

  /** `low[u] = min(low[u], disc[v])` for a discovered non-parent v. */
  lemma BackEdge(adj: Adj, u: int, p: int, s0: State, s: State, order: seq<int>, j: int,
                 children: int, kids: seq<int>)
    requires Scanning(adj, u, p, s0, s, order, j, children, kids) && j < |adj[u]|
    requires s.disc[adj[u][j]] != -1 && adj[u][j] != s.parent[u]
    ensures Scanning(adj, u, p, s0,
                 s.(low := s.low[u := if s.disc[adj[u][j]] < s.low[u] then s.disc[adj[u][j]] else s.low[u]]),
                 order, j + 1, children, kids)
  {
    var v := adj[u][j];
    var lowU := if s.disc[v] < s.low[u] then s.disc[v] else s.low[u];
    var s' := s.(low := s.low[u := lowU]);
    assert 1 <= s.disc[v] by {
      var i :| 0 <= i < |order| && order[i] == v;
    }
    NoSelfChild(adj, s, u);
    LowStep(adj, s, s', u, j, lowU);
    KeepRule(adj, s, s', u, children, kids);
    OwnStep(adj, u, p, s0, s, order, j, children, kids, s');
  }

  /** Lowering `low[u]` alone keeps u's flag rule and its children. */
  lemma KeepRule(adj: Adj, s: State, s': State, u: int, children: int, kids: seq<int>)
    requires Sized(|adj|, s) && Sized(|adj|, s') && 0 <= u < |adj| && s.parent[u] != u
    requires s'.disc == s.disc && s'.parent == s.parent && s'.ap == s.ap
    requires forall x :: 0 <= x < |adj| && x != u ==> s'.low[x] == s.low[x]
    requires RuleOk(adj, s, u) && Kids(adj, s, u, children, kids)
    ensures RuleOk(adj, s', u) && Kids(adj, s', u, children, kids)
  {
  }

  /** A step that changes only u's `low` and `ap`, and re-establishes u's
      own part of the scan one entry further on, keeps the scan going. */
  lemma OwnStep(adj: Adj, u: int, p: int, s0: State, s: State, order: seq<int>, j: int,
                children: int, kids: seq<int>, s': State)
    requires Scanning(adj, u, p, s0, s, order, j, children, kids) && j < |adj[u]| && Sized(|adj|, s')
    requires s'.disc == s.disc && s'.parent == s.parent && s'.time == s.time
    requires forall x :: 0 <= x < |adj| && x != u ==> s'.low[x] == s.low[x] && s'.ap[x] == s.ap[x]
    requires 1 <= s'.low[u] <= s'.disc[u] && s.disc[adj[u][j]] != -1
    requires LowOk(adj, s', u, j + 1) && RuleOk(adj, s', u) && Kids(adj, s', u, children, kids)
    ensures Scanning(adj, u, p, s0, s', order, j + 1, children, kids)
  {
    ValidKeep(adj, s, order, s');
    KeepDone(adj, u, s0, s, s');
  }

  /** No vertex is its own parent. */
  lemma NoSelfChild(adj: Adj, s: State, u: int)
    requires Sized(|adj|, s) && Parented(adj, s) && 0 <= u < |adj|
    ensures s.parent[u] != u
  {
    if s.parent[u] != -1 {
      assert TreeEdge(adj, s, u);
    }
  }

  /** Lowering `low[u]` to the minimum with one more candidate keeps the low
      equation, now over one more list entry. */
  lemma LowStep(adj: Adj, s: State, s': State, u: int, j: int, lowU: int)
    requires WellFormed(adj) && Sized(|adj|, s) && 0 <= u < |adj| && 0 <= j < |adj[u]|
    requires LowOk(adj, s, u, j) && s.disc[adj[u][j]] != -1 && adj[u][j] != s.parent[u]
    requires lowU == if s.disc[adj[u][j]] < s.low[u] then s.disc[adj[u][j]] else s.low[u]
    requires s' == s.(low := s.low[u := lowU])
    requires s.parent[u] != u
    ensures LowOk(adj, s', u, j + 1)
  {
  }

  /** After `dfs(v)` returns for an undiscovered neighbour v, taking the
      child's `low` and applying the two rules keeps the scan going. */
  lemma TreeChild(adj: Adj, u: int, p: int, s0: State, s: State, order: seq<int>, j: int,
                  children: int, kids: seq<int>, s1: State, o1: seq<int>, s': State)
    requires Scanning(adj, u, p, s0, s, order, j, children, kids) && j < |adj[u]|
    requires s.disc[adj[u][j]] == -1
    requires Valid(adj, s1, o1)
    requires Unchanged(adj, s, s1, -1) && NewParents(adj, s, s1, adj[u][j], u)
    requires s1.disc[adj[u][j]] != -1 && s1.parent[adj[u][j]] == u
    requires forall v :: 0 <= v < |adj| && s.disc[v] == -1 && s1.disc[v] != -1 ==> DoneOk(adj, s1, v)
    requires
      var v := adj[u][j];
      var lowU := if s1.low[v] < s1.low[u] then s1.low[v] else s1.low[u];
      var apU := s1.ap[u] || (s1.parent[u] == -1 && children + 1 > 1) || (s1.parent[u] != -1 && s1.low[v] >= s1.disc[u]);
      s' == s1.(low := s1.low[u := lowU], ap := s1.ap[u := apU])
    requires Below(adj, u, s0, s')
    ensures Scanning(adj, u, p, s0, s', o1, j + 1, children + 1, kids + [adj[u][j]])
  {
    var v := adj[u][j];
    ChildState(adj, u, p, s0, s, order, j, children, kids, s1, o1, s');
    assert 1 <= s1.low[v] <= s1.disc[v] by {
      assert DoneOk(adj, s1, v);
    }
    ChildSelf(adj, u, s, j, children, kids, s1, s');
    Assemble(adj, u, p, s0, s', o1, j, children + 1, kids + [v]);
  }

  /** The child's iteration as seen from outside u: the state stays valid,
      the frame of `dfs(u)` holds, and what lies below u stays finished. */
  lemma ChildState(adj: Adj, u: int, p: int, s0: State, s: State, order: seq<int>, j: int,
                   children: int, kids: seq<int>, s1: State, o1: seq<int>, s': State)
    requires Scanning(adj, u, p, s0, s, order, j, children, kids) && j < |adj[u]|
    requires s.disc[adj[u][j]] == -1
    requires Valid(adj, s1, o1)
    requires Unchanged(adj, s, s1, -1) && NewParents(adj, s, s1, adj[u][j], u)
    requires forall v :: 0 <= v < |adj| && s.disc[v] == -1 && s1.disc[v] != -1 ==> DoneOk(adj, s1, v)
    requires Sized(|adj|, s') && s'.disc == s1.disc && s'.parent == s1.parent && s'.time == s1.time
    requires forall x :: 0 <= x < |adj| && x != u ==> s'.low[x] == s1.low[x] && s'.ap[x] == s1.ap[x]
    ensures Valid(adj, s', o1)
    ensures Unchanged(adj, s0, s', -1) && NewParents(adj, s0, s', u, p)
    ensures s'.disc[u] == s0.time + 1 && s'.parent[u] == p && s0.time < s'.time
    ensures DoneBelow(adj, u, s0, s')
  {
    ValidKeep(adj, s1, o1, s');
    ChildFrame(adj, u, p, s0, s, order, j, s1, s');
    ChildDone(adj, u, p, s0, s, order, j, s1, s');
  }

  /** The parts of `Scanning` one entry further on. */
  lemma Assemble(adj: Adj, u: int, p: int, s0: State, s: State, order: seq<int>, j: int,
                 children: int, kids: seq<int>)
    requires Valid(adj, s, order) && Sized(|adj|, s0) && 0 <= u < |adj| && 0 <= j < |adj[u]|
    requires s0.disc[u] == -1 && s.disc[u] == s0.time + 1 && s.parent[u] == p && s0.time < s.time
    requires p == -1 || (0 <= p < |adj| && s0.disc[p] != -1)
    requires Unchanged(adj, s0, s, -1) && NewParents(adj, s0, s, u, p)
    requires DoneBelow(adj, u, s0, s) && Stamped(s0) && Below(adj, u, s0, s)
    requires 1 <= s.low[u] <= s.disc[u]
    requires forall k :: 0 <= k < j + 1 ==> s.disc[adj[u][k]] != -1
    requires LowOk(adj, s, u, j + 1) && RuleOk(adj, s, u)
    requires Kids(adj, s, u, children, kids)
    ensures Scanning(adj, u, p, s0, s, order, j + 1, children, kids)
  {
  }

  /** What the child's call discovered lies below the child, hence below u. */
  lemma ChildBelow(adj: Adj, u: int, v: int, s0: State, s: State, s1: State, s': State)
    requires Sized(|adj|, s0) && Sized(|adj|, s) && Sized(|adj|, s1) && Sized(|adj|, s')
    requires 0 <= u < |adj| && 0 <= v < |adj| && s.disc[v] == -1
    requires Below(adj, u, s0, s) && Below(adj, v, s, s1) && Frozen(s, s1)
    requires s1.parent[v] == u && 0 <= s1.disc[u] < s1.disc[v]
    requires s'.disc == s1.disc && s'.parent == s1.parent
    ensures Below(adj, u, s0, s')
  {
    assert Above(s1.parent, s1.disc, u, v) by {
      assert Above(s1.parent, s1.disc, u, u);
    }
    forall x | 0 <= x < |adj| && s0.disc[x] == -1 && s1.disc[x] != -1
      ensures Above(s1.parent, s1.disc, u, x)
    {
      if s.disc[x] != -1 {
        AboveKeep(s, s1, u, x);
      } else {
        AboveTrans(s1.parent, s1.disc, u, v, x);
      }
    }
  }

  /** The state-change facts across the child's whole iteration. */
  lemma ChildFrame(adj: Adj, u: int, p: int, s0: State, s: State, order: seq<int>, j: int, s1: State, s': State)
    requires WellFormed(adj) && Sized(|adj|, s0) && Sized(|adj|, s) && Sized(|adj|, s1) && Sized(|adj|, s')
    requires 0 <= u < |adj| && 0 <= j < |adj[u]| && s.disc[adj[u][j]] == -1
    requires 0 <= s0.time && s0.disc[u] == -1 && s.disc[u] == s0.time + 1 && s.parent[u] == p && s0.time < s.time
    requires Unchanged(adj, s0, s, -1) && NewParents(adj, s0, s, u, p)
    requires Unchanged(adj, s, s1, -1) && NewParents(adj, s, s1, adj[u][j], u)
    requires s'.disc == s1.disc && s'.parent == s1.parent && s'.time == s1.time
    requires forall x :: 0 <= x < |adj| && x != u ==> s'.low[x] == s1.low[x] && s'.ap[x] == s1.ap[x]
    ensures Unchanged(adj, s0, s', -1) && NewParents(adj, s0, s', u, p)
    ensures s'.disc[u] == s0.time + 1 && s'.parent[u] == p && s0.time < s'.time
  {
  }

  /** Vertices finished earlier, and those the child's call finished, are
      still finished. */
  lemma ChildDone(adj: Adj, u: int, p: int, s0: State, s: State, order: seq<int>, j: int, s1: State, s': State)
    requires WellFormed(adj) && Sized(|adj|, s0) && Sized(|adj|, s) && Sized(|adj|, s1) && Sized(|adj|, s')
    requires 0 <= u < |adj| && 0 <= j < |adj[u]| && s.disc[adj[u][j]] == -1
    requires Parented(adj, s) && Parented(adj, s1) && DoneBelow(adj, u, s0, s)
    requires 0 <= s0.time && s0.disc[u] == -1 && s.disc[u] == s0.time + 1 && s0.time < s.time
    requires forall v :: 0 <= v < |adj| && s0.disc[v] == -1 && s.disc[v] != -1 ==> s0.time < s.disc[v]
    requires Unchanged(adj, s, s1, -1) && NewParents(adj, s, s1, adj[u][j], u)
    requires forall v :: 0 <= v < |adj| && s.disc[v] == -1 && s1.disc[v] != -1 ==> DoneOk(adj, s1, v)
    requires s'.disc == s1.disc && s'.parent == s1.parent && s'.time == s1.time
    requires forall x :: 0 <= x < |adj| && x != u ==> s'.low[x] == s1.low[x] && s'.ap[x] == s1.ap[x]
    ensures DoneBelow(adj, u, s0, s')
  {
    assert s1.disc[u] == s0.time + 1;
    forall v | 0 <= v < |adj| && s0.disc[v] == -1 && s1.disc[v] != -1
      ensures s0.time < s1.disc[v]
    {
      if s.disc[v] != -1 {
        assert s1.disc[v] == s.disc[v];
      }
    }
    forall d | 0 <= d < |adj| && s0.disc[d] == -1 && s1.disc[d] != -1 && d != u
      ensures DoneOk(adj, s1, d)
    {
      if s.disc[d] != -1 {
        OldDone(adj, u, s0, s, s1, adj[u][j], d);
      }
    }
    KeepDone(adj, u, s0, s1, s');
  }

  /** A vertex below u finished before the child's call is still finished
      after it: u is its only changed vertex, and u is not d's child. */
  lemma OldDone(adj: Adj, u: int, s0: State, s: State, s1: State, v: int, d: int)
    requires WellFormed(adj) && Sized(|adj|, s0) && Sized(|adj|, s) && Sized(|adj|, s1)
    requires 0 <= u < |adj| && 0 <= d < |adj| && d != u
    requires Parented(adj, s) && DoneOk(adj, s, d)
    requires 0 <= s0.time && s.disc[u] == s0.time + 1 && s0.time < s.disc[d]
    requires Unchanged(adj, s, s1, -1) && NewParents(adj, s, s1, v, u)
    ensures DoneOk(adj, s1, d)
  {
    if s.parent[u] != -1 {
      assert TreeEdge(adj, s, u);
    }
    assert Unchanged(adj, s, s1, u);
    Stable(adj, s, s1, u, v, d);
  }

  /** u's own entries after taking the child: the low equation, the two
      rules, and the children list. */
  lemma ChildOwn(adj: Adj, u: int, s: State, j: int, children: int, kids: seq<int>, s1: State, s': State)
    requires WellFormed(adj) && Sized(|adj|, s) && Sized(|adj|, s1) && Sized(|adj|, s')
    requires 0 <= u < |adj| && 0 <= j < |adj[u]| && 1 <= s.low[u] <= s.disc[u]
    requires forall k :: 0 <= k < j ==> s.disc[adj[u][k]] != -1
    requires LowOk(adj, s, u, j) && RuleOk(adj, s, u)
    requires ChildOf(adj, u, s, j, children, kids, s1)
    requires s1.disc[adj[u][j]] != -1 && 1 <= s1.low[adj[u][j]] <= s1.disc[adj[u][j]]
    requires
      var v := adj[u][j];
      var lowU := if s1.low[v] < s1.low[u] then s1.low[v] else s1.low[u];
      var apU := s1.ap[u] || (s1.parent[u] == -1 && children + 1 > 1) || (s1.parent[u] != -1 && s1.low[v] >= s1.disc[u]);
      s' == s1.(low := s1.low[u := lowU], ap := s1.ap[u := apU])
    ensures 1 <= s'.low[u] <= s'.disc[u]
    ensures forall k :: 0 <= k < j + 1 ==> s'.disc[adj[u][k]] != -1
    ensures LowOk(adj, s', u, j + 1) && RuleOk(adj, s', u)
    ensures Kids(adj, s', u, children + 1, kids + [adj[u][j]])
  {
    var v := adj[u][j];
    assert s'.parent == s1.parent && s'.disc == s1.disc;
    ChildLow(adj, u, s, s', j, v);
    ChildRule(adj, u, s, s', children, kids, v);
  }

  /** u's own entries once the child's call has returned and u has taken
      its `low` and applied the two rules. */
  lemma ChildSelf(adj: Adj, u: int, s: State, j: int, children: int, kids: seq<int>, s1: State, s': State)
    requires WellFormed(adj) && Sized(|adj|, s) && Sized(|adj|, s1) && Sized(|adj|, s')
    requires 0 <= u < |adj| && 0 <= j < |adj[u]| && 1 <= s.low[u] <= s.disc[u]
    requires Parented(adj, s) && s.disc[adj[u][j]] == -1 && Kids(adj, s, u, children, kids)
    requires forall k :: 0 <= k < j ==> s.disc[adj[u][k]] != -1
    requires LowOk(adj, s, u, j) && RuleOk(adj, s, u)
    requires Unchanged(adj, s, s1, -1) && NewParents(adj, s, s1, adj[u][j], u) && s1.parent[adj[u][j]] == u
    requires s1.disc[adj[u][j]] != -1 && 1 <= s1.low[adj[u][j]] <= s1.disc[adj[u][j]]
    requires
      var v := adj[u][j];
      var lowU := if s1.low[v] < s1.low[u] then s1.low[v] else s1.low[u];
      var apU := s1.ap[u] || (s1.parent[u] == -1 && children + 1 > 1) || (s1.parent[u] != -1 && s1.low[v] >= s1.disc[u]);
      s' == s1.(low := s1.low[u := lowU], ap := s1.ap[u := apU])
    ensures 1 <= s'.low[u] <= s'.disc[u]
    ensures forall k :: 0 <= k < j + 1 ==> s'.disc[adj[u][k]] != -1
    ensures LowOk(adj, s', u, j + 1) && RuleOk(adj, s', u)
    ensures Kids(adj, s', u, children + 1, kids + [adj[u][j]])
  {
    ChildKids(adj, u, s, j, children, kids, s1);
    ChildOwn(adj, u, s, j, children, kids, s1, s');
  }

  /** What the call on the undiscovered neighbour v = `adj[u][j]` leaves of
      u's side: u's entries, the other children's `low`, and the timestamps
      of the neighbours already scanned are as before, and u's children are
      the old ones and v. */
  ghost predicate ChildOf(adj: Adj, u: int, s: State, j: int, children: int, kids: seq<int>, s1: State)
    requires WellFormed(adj) && Sized(|adj|, s) && Sized(|adj|, s1) && 0 <= u < |adj| && 0 <= j < |adj[u]|
  {
    var v := adj[u][j];
    && v != u && v !in kids && s.parent[u] != u && Kids(adj, s, u, children, kids)
    && s1.disc[u] == s.disc[u] && s1.parent[u] == s.parent[u] && s1.low[u] == s.low[u] && s1.ap[u] == s.ap[u]
    && (forall x :: 0 <= x < |adj| ==> (s1.parent[x] == u <==> (s.parent[x] == u || x == v)))
    && (forall x :: 0 <= x < |adj| && s.parent[x] == u ==> s1.low[x] == s.low[x])
    && (forall k :: 0 <= k < j ==> s1.disc[adj[u][k]] == s.disc[adj[u][k]])
  }

  lemma ChildKids(adj: Adj, u: int, s: State, j: int, children: int, kids: seq<int>, s1: State)
    requires WellFormed(adj) && Sized(|adj|, s) && Sized(|adj|, s1) && 0 <= u < |adj| && 0 <= j < |adj[u]|
    requires Parented(adj, s) && s.disc[u] != -1 && s.disc[adj[u][j]] == -1 && Kids(adj, s, u, children, kids)
    requires forall k :: 0 <= k < j ==> s.disc[adj[u][k]] != -1
    requires Unchanged(adj, s, s1, -1) && NewParents(adj, s, s1, adj[u][j], u) && s1.parent[adj[u][j]] == u
    ensures ChildOf(adj, u, s, j, children, kids, s1)
    ensures Kids(adj, s1, u, children + 1, kids + [adj[u][j]])
  {
    var v := adj[u][j];
    forall x | 0 <= x < |adj|
      ensures s1.parent[x] == u <==> (s.parent[x] == u || x == v)
    {
      if s.parent[x] == u {
        assert TreeEdge(adj, s, x);
      }
    }
    forall x | 0 <= x < |adj| && s.parent[x] == u
      ensures s1.low[x] == s.low[x]
    {
      assert TreeEdge(adj, s, x);
    }
    assert s.parent[v] == -1 || TreeEdge(adj, s, v);
    assert s.parent[u] == -1 || TreeEdge(adj, s, u);
    assert v !in kids;
    DistinctJoin(kids, [v]);
  }

  lemma ChildLow(adj: Adj, u: int, s: State, s': State, j: int, v: int)
    requires WellFormed(adj) && Sized(|adj|, s) && Sized(|adj|, s') && 0 <= u < |adj| && 0 <= j < |adj[u]|
    requires v == adj[u][j] && v != u && LowOk(adj, s, u, j)
    requires s'.disc[u] == s.disc[u] && s'.parent[u] == s.parent[u]
    requires s'.low[u] == if s'.low[v] < s.low[u] then s'.low[v] else s.low[u]
    requires forall x :: 0 <= x < |adj| ==> (s'.parent[x] == u <==> (s.parent[x] == u || x == v))
    requires forall x :: 0 <= x < |adj| && s.parent[x] == u ==> s'.low[x] == s.low[x]
    requires forall k :: 0 <= k < j ==> s'.disc[adj[u][k]] == s.disc[adj[u][k]]
    requires s'.low[v] <= s'.disc[v]
    ensures LowOk(adj, s', u, j + 1)
  {
    if s.low[u] == s.disc[u] {
    } else if exists x :: 0 <= x < |adj| && s.parent[x] == u && s.low[u] == s.low[x] {
      var x :| 0 <= x < |adj| && s.parent[x] == u && s.low[u] == s.low[x];
      assert s'.parent[x] == u;
    } else {
      var k :| 0 <= k < j && adj[u][k] != s.parent[u] && s.low[u] == s.disc[adj[u][k]];
      assert adj[u][k] != s'.parent[u];
    }
    assert s'.parent[v] == u;
  }

  lemma ChildRule(adj: Adj, u: int, s: State, s': State, children: int, kids: seq<int>, v: int)
    requires Sized(|adj|, s) && Sized(|adj|, s') && 0 <= u < |adj| && 0 <= v < |adj| && v != u
    requires RuleOk(adj, s, u) && Kids(adj, s, u, children, kids) && v !in kids
    requires s'.disc[u] == s.disc[u] && s'.parent[u] == s.parent[u]
    requires s'.ap[u] == (s.ap[u] || (s.parent[u] == -1 && children + 1 > 1) || (s.parent[u] != -1 && s'.low[v] >= s.disc[u]))
    requires forall x :: 0 <= x < |adj| ==> (s'.parent[x] == u <==> (s.parent[x] == u || x == v))
    requires forall x :: 0 <= x < |adj| && s.parent[x] == u ==> s'.low[x] == s.low[x]
    ensures RuleOk(adj, s', u)
  {
    if s.parent[u] == -1 {
      if children + 1 > 1 {
        assert kids[0] in kids;
        assert s'.parent[kids[0]] == u && s'.parent[v] == u;
        assert TwoChildren(s'.parent, u);
      } else {
        assert kids == [];
        forall a, b | 0 <= a < |adj| && 0 <= b < |adj| && s'.parent[a] == u && s'.parent[b] == u
          ensures a == b
        {
          assert a == v && b == v;
        }
      }
    } else {
      if s'.low[v] >= s.disc[u] {
        assert s'.parent[v] == u;
      }
      if s.ap[u] {
        var x :| 0 <= x < |adj| && s.parent[x] == u && s.low[x] >= s.disc[u];
        assert s'.parent[x] == u;
      }
    }
  }

  // ---------------------------------------------------------------------
  // The driver

  /** `findArticulationPoints()`: a search from every vertex not yet
      discovered, in index order. */
  method FindArticulationPoints(adj: Adj) returns (s: State)
    requires WellFormed(adj)
    ensures Sized(|adj|, s)
    ensures forall v :: 0 <= v < |adj| ==> 1 <= s.disc[v] <= |adj|
    ensures forall v, w :: 0 <= v < w < |adj| ==> s.disc[v] != s.disc[w]
    ensures forall v :: 0 <= v < |adj| && s.parent[v] != -1 ==> TreeEdge(adj, s, v)
    ensures forall u :: 0 <= u < |adj| ==> 1 <= s.low[u] <= s.disc[u]
    ensures forall u :: 0 <= u < |adj| ==> LowOk(adj, s, u, |adj[u]|)
    ensures forall u :: 0 <= u < |adj| ==> RuleOk(adj, s, u)
    ensures forall u :: 0 <= u < |adj| ==> NoCross(adj, s, u)
    ensures forall v, w :: 0 <= v < |adj| && 0 <= w < |adj| && v != w && s.parent[v] == -1 && v in adj[w] ==>
              s.disc[v] < s.disc[w]
  {
    s := Init(|adj|);
    InitValid(adj);
    ghost var order: seq<int> := [];
    for i := 0 to |adj|
      invariant Valid(adj, s, order) && AllDone(adj, s)
      invariant forall v :: 0 <= v < i ==> s.disc[v] != -1
    {
      s, order := Search(adj, i, s, order);
    }
    Conclude(adj, s, order);
  }

  /** Every discovered vertex is finished. */
  ghost predicate AllDone(adj: Adj, s: State)
    requires WellFormed(adj) && Sized(|adj|, s)
  {
    forall v :: 0 <= v < |adj| && s.disc[v] != -1 ==> DoneOk(adj, s, v)
  }

  /** One iteration: a search from r unless r has been discovered. */
  method Search(adj: Adj, r: int, s: State, ghost order: seq<int>) returns (s': State, ghost order': seq<int>)
    requires Valid(adj, s, order) && AllDone(adj, s) && 0 <= r < |adj|
    requires forall v :: 0 <= v < r ==> s.disc[v] != -1
    ensures Valid(adj, s', order') && AllDone(adj, s')
    ensures forall v :: 0 <= v < r + 1 ==> s'.disc[v] != -1
    ensures s.disc[r] != -1 ==> s' == s
    ensures s.disc[r] == -1 ==> s'.parent[r] == -1 && Below(adj, r, s, s')
  {
    if s.disc[r] == -1 {
      s', order' := Dfs(adj, r, -1, s, order);
      Root(adj, s, order, s', order');
    } else {
      s', order' := s, order;
    }
  }

  /** The search over, its results in terms of every vertex. */
  lemma Conclude(adj: Adj, s: State, order: seq<int>)
    requires Valid(adj, s, order) && AllDone(adj, s)
    requires forall v :: 0 <= v < |adj| ==> s.disc[v] != -1
    ensures forall v :: 0 <= v < |adj| ==> 1 <= s.disc[v] <= |adj|
    ensures forall v, w :: 0 <= v < w < |adj| ==> s.disc[v] != s.disc[w]
    ensures forall v :: 0 <= v < |adj| && s.parent[v] != -1 ==> TreeEdge(adj, s, v)
    ensures forall u :: 0 <= u < |adj| ==> 1 <= s.low[u] <= s.disc[u]
    ensures forall u :: 0 <= u < |adj| ==> LowOk(adj, s, u, |adj[u]|)
    ensures forall u :: 0 <= u < |adj| ==> RuleOk(adj, s, u)
    ensures forall u :: 0 <= u < |adj| ==> NoCross(adj, s, u)
    ensures forall v, w :: 0 <= v < |adj| && 0 <= w < |adj| && v != w && s.parent[v] == -1 && v in adj[w] ==>
              s.disc[v] < s.disc[w]
  {
    Stamps(adj, s, order);
    assert Parented(adj, s);
    forall u | 0 <= u < |adj|
      ensures 1 <= s.low[u] <= s.disc[u] && LowOk(adj, s, u, |adj[u]|) && RuleOk(adj, s, u) && NoCross(adj, s, u)
    {
      assert DoneOk(adj, s, u);
    }
    forall v, w | 0 <= v < |adj| && 0 <= w < |adj| && v != w && s.parent[v] == -1 && v in adj[w]
      ensures s.disc[v] < s.disc[w]
    {
      var k :| 0 <= k < |adj[w]| && adj[w][k] == v;
      assert NoCross(adj, s, w);
      RootAbove(s.parent, s.disc, w, v);
    }
  }

  /** After a search from a new root, every discovered vertex is finished. */
  lemma Root(adj: Adj, s: State, order: seq<int>, s1: State, o1: seq<int>)
    requires Valid(adj, s, order) && Valid(adj, s1, o1) && AllDone(adj, s)
    requires Unchanged(adj, s, s1, -1) && NewParents(adj, s, s1, -1, -1)
    requires forall v :: 0 <= v < |adj| && s.disc[v] == -1 && s1.disc[v] != -1 ==> DoneOk(adj, s1, v)
    ensures AllDone(adj, s1)
  {
    forall d | 0 <= d < |adj| && s1.disc[d] != -1
      ensures DoneOk(adj, s1, d)
    {
      if s.disc[d] != -1 {
        Stable(adj, s, s1, -1, -1, d);
      }
    }
  }

  /** With every vertex discovered, the timestamps are distinct and lie in
      1..n: a permutation of 1..n. */
  lemma Stamps(adj: Adj, s: State, order: seq<int>)
    requires Valid(adj, s, order)
    requires forall v :: 0 <= v < |adj| ==> s.disc[v] != -1
    ensures forall v :: 0 <= v < |adj| ==> 1 <= s.disc[v] <= |adj|
    ensures forall v, w :: 0 <= v < w < |adj| ==> s.disc[v] != s.disc[w]
  {
    DistinctRangeLength(order, |adj|);
    forall v | 0 <= v < |adj|
      ensures 1 <= s.disc[v] <= |order| && order[s.disc[v] - 1] == v
    {
      var i :| 0 <= i < |order| && order[i] == v;
    }
  }
}
