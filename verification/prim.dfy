/** `Graph::primMST` of graph-03-MST-Prims.cpp: Prim's algorithm from
    vertex 0 with a lazy priority queue. `key[v]` is the lightest known edge
    from the tree to v, `parent[v]` its other end, and `inMST[v]` whether v
    has joined the tree. The program prints `parent[i] - i` and `key[i]`
    for every i >= 1; here those arrays, and `inMST`, are the results. */
module Prim {
  import opened Weighted
  import opened MinQueue
  import Seqs

  /** Following parent pointers from v reaches vertex 0 within k steps. */
  predicate ReachesRoot(parent: seq<int>, v: int, k: nat)
    decreases k
  {
    v == 0 || (k > 0 && 0 <= v < |parent| && ReachesRoot(parent, parent[v], k - 1))
  }

  // ---------------------------------------------------------------------
  // The loop invariant

  /** The arrays: their sizes, the root's entries, keys no larger than
      `IntMax`, a parent exactly when the key is finite, and every parent
      link an edge of weight `key[v]` from a tree vertex. */
  predicate Shape(adj: WAdj, key: seq<int>, parent: seq<int>, inMst: seq<bool>) {
    && WellFormed(adj) && |adj| > 0
    && |key| == |adj| && |parent| == |adj| && |inMst| == |adj|
    && key[0] == 0 && parent[0] == -1
    && (forall v :: 0 <= v < |adj| ==> key[v] <= IntMax)
    && (forall v :: 0 < v < |adj| ==> (parent[v] == -1 <==> key[v] == IntMax))
    && (forall v :: 0 <= v < |adj| && parent[v] != -1 ==>
          0 <= parent[v] < |adj| && inMst[parent[v]] && Arc(v, key[v]) in adj[parent[v]])
  }

  /** order lists the tree vertices in the order they joined, starting with
      0, and each later one's parent joined before it. */
  ghost predicate Tree(adj: WAdj, parent: seq<int>, inMst: seq<bool>, order: seq<int>)
    requires |parent| == |adj| && |inMst| == |adj|
  {
    && Seqs.Distinct(order)
    && (forall i :: 0 <= i < |order| ==> 0 <= order[i] < |adj|)
    && (forall v :: 0 <= v < |adj| ==> (inMst[v] <==> v in order))
    && (|order| > 0 ==> order[0] == 0)
    && ParentsFirst(parent, order)
  }

  /** Each listed vertex other than 0 has its parent listed before it. */
  predicate ParentsFirst(parent: seq<int>, order: seq<int>) {
    forall i :: 0 <= i < |order| ==> ParentBefore(parent, order, i)
  }

  /** The i-th listed vertex is 0 or has its parent listed before it. (A
      predicate of its own, so that facts about `order[k]` do not trigger
      the quantifier above over and over.) */
  predicate ParentBefore(parent: seq<int>, order: seq<int>, i: int)
    requires 0 <= i < |order|
  {
    order[i] == 0 || (0 <= order[i] < |parent| && parent[order[i]] in order[..i])
  }

  /** Every arc a out of a tree vertex is covered: its end is in the tree,
      or has a key no heavier than a. */
  predicate Covered(key: seq<int>, inMst: seq<bool>, a: Arc)
    requires 0 <= a.to < |key| && |inMst| == |key|
  {
    inMst[a.to] || key[a.to] <= a.weight
  }

  /** The queue: entries name vertices that are 0 or have a parent; every
      vertex outside the tree with a finite key is queued with that key; and
      every arc out of the tree is covered, except u's arcs from j on. */
  predicate Fringe(adj: WAdj, key: seq<int>, parent: seq<int>, inMst: seq<bool>, pq: seq<Entry>, u: int, j: int)
    requires Shape(adj, key, parent, inMst)
  {
    && (forall k :: 0 <= k < |pq| ==> 0 <= pq[k].1 < |adj| && (pq[k].1 == 0 || parent[pq[k].1] != -1))
    && (forall v :: 0 <= v < |adj| && !inMst[v] && key[v] < IntMax ==> (key[v], v) in pq)
    && (forall x, i :: 0 <= x < |adj| && inMst[x] && 0 <= i < |adj[x]| && (x != u || i < j) ==>
          Covered(key, inMst, adj[x][i]))
  }

  /** Before the first pop nothing has been relaxed. */
  predicate Fresh(adj: WAdj, parent: seq<int>, pq: seq<Entry>)
    requires |parent| == |adj|
  {
    pq == [(0, 0)] && forall v :: 0 < v < |adj| ==> parent[v] == -1
  }

  ghost predicate Inv(adj: WAdj, key: seq<int>, parent: seq<int>, inMst: seq<bool>, pq: seq<Entry>, order: seq<int>) {
    && Shape(adj, key, parent, inMst) && Tree(adj, parent, inMst, order)
    && (|order| == 0 ==> Fresh(adj, parent, pq))
    && Fringe(adj, key, parent, inMst, pq, -1, 0)
  }

  /** Tree vertices keep their key and parent, and keys only go down. */
  predicate Frozen(key0: seq<int>, parent0: seq<int>, inMst0: seq<bool>,
                   key: seq<int>, parent: seq<int>, inMst: seq<bool>)
  {
    && |key0| == |key| == |parent0| == |parent| == |inMst0| == |inMst|
    && (forall v :: 0 <= v < |key| ==> key[v] <= key0[v])
    && (forall v :: 0 <= v < |key| && inMst0[v] ==> inMst[v] && key[v] == key0[v] && parent[v] == parent0[v])
  }

  // ---------------------------------------------------------------------
  // The algorithm

  /** `primMST()`: the key, parent and inMST arrays it leaves behind. */
  method PrimMst(adj: WAdj) returns (key: seq<int>, parent: seq<int>, inMst: seq<bool>)
    requires WellFormed(adj) && |adj| > 0
    ensures Spanning(adj, key, parent, inMst)
  {
    var n := |adj|;
    key := seq(n, v => if v == 0 then 0 else IntMax);
    parent := seq(n, _ => -1);
    inMst := seq(n, _ => false);
    var pq: seq<Entry> := [(0, 0)];
    ghost var order: seq<int> := [];
    while |pq| > 0
      invariant Inv(adj, key, parent, inMst, pq, order) && |order| <= n
      decreases n - |order|, |pq|
    {
      key, parent, inMst, pq, order := Step(adj, key, parent, inMst, pq, order);
    }
    Finish(adj, key, parent, inMst, order);
  }

  /** What the arrays satisfy when the queue is empty. */
  ghost predicate Spanning(adj: WAdj, key: seq<int>, parent: seq<int>, inMst: seq<bool>) {
    && Shape(adj, key, parent, inMst) && inMst[0]
    && (forall v :: 0 <= v < |adj| && !inMst[v] ==> key[v] == IntMax && parent[v] == -1)
    && (forall v :: 0 < v < |adj| && inMst[v] ==> parent[v] != -1)
    && (forall v :: 0 <= v < |adj| && inMst[v] ==> ReachesRoot(parent, v, |adj|))
    && (forall u, j :: 0 <= u < |adj| && inMst[u] && 0 <= j < |adj[u]| && adj[u][j].weight < IntMax ==>
          inMst[adj[u][j].to])
  }

  /** One round: pop the least entry; skip its vertex if already in the
      tree, otherwise add it and relax its edges. At most one vertex joins,
      tree vertices keep their key and parent, and keys only go down. */
  method Step(adj: WAdj, key: seq<int>, parent: seq<int>, inMst: seq<bool>, pq: seq<Entry>, ghost order: seq<int>)
    returns (key': seq<int>, parent': seq<int>, inMst': seq<bool>, pq': seq<Entry>, ghost order': seq<int>)
    requires Inv(adj, key, parent, inMst, pq, order) && |pq| > 0
    ensures Inv(adj, key', parent', inMst', pq', order') && |order'| <= |adj|
    ensures |order| < |order'| || (order' == order && |pq'| < |pq|)
    ensures Frozen(key, parent, inMst, key', parent', inMst')
    ensures forall v, w :: 0 <= v < |adj| && 0 <= w < |adj| && !inMst[v] && inMst'[v] && !inMst[w] && inMst'[w] ==> v == w
    ensures inMst[Pop(pq).0.1] ==> key' == key && parent' == parent && inMst' == inMst
  {
    var top := Pop(pq);
    var u := top.0.1;
    if inMst[u] {
      Skip(adj, key, parent, inMst, pq, order, top.0, top.1);
      key', parent', inMst', pq', order' := key, parent, inMst, top.1, order;
    } else {
      Join(adj, key, parent, inMst, pq, order, top.0, top.1);
      key', parent', inMst', pq', order' := RelaxFrom(adj, key, parent, inMst[u := true], top.1, order + [u], u);
    }
    Seqs.DistinctRangeLength(order', |adj|);
  }

  /** `if (inMST[u]) continue;` keeps the invariant. */
  lemma Skip(adj: WAdj, key: seq<int>, parent: seq<int>, inMst: seq<bool>, pq: seq<Entry>, order: seq<int>,
             top: Entry, rest: seq<Entry>)
    requires Inv(adj, key, parent, inMst, pq, order) && top in pq && 0 <= top.1 < |adj| && inMst[top.1]
    requires forall e :: e in pq && e != top ==> e in rest
    requires forall e :: e in rest ==> e in pq
    ensures Inv(adj, key, parent, inMst, rest, order)
  {
    assert |order| > 0;
    forall k | 0 <= k < |rest|
      ensures 0 <= rest[k].1 < |adj| && (rest[k].1 == 0 || parent[rest[k].1] != -1)
    {
      assert rest[k] in pq;
    }
  }

  /** `inMST[u] = true` for a popped u outside the tree: u joins the order
      after its parent, and the invariant holds except for u's own arcs. */
  lemma Join(adj: WAdj, key: seq<int>, parent: seq<int>, inMst: seq<bool>, pq: seq<Entry>, order: seq<int>,
             top: Entry, rest: seq<Entry>)
    requires Inv(adj, key, parent, inMst, pq, order) && top in pq && 0 <= top.1 < |adj| && !inMst[top.1]
    requires forall e :: e in pq && e != top ==> e in rest
    requires forall e :: e in rest ==> e in pq
    ensures Partial(adj, key, parent, inMst, key, parent, inMst[top.1 := true], rest, order + [top.1], top.1, 0)
  {
    var u := top.1;
    JoinTree(adj, key, parent, inMst, pq, order, u);
    JoinShape(adj, key, parent, inMst, u);
    JoinFringe(adj, key, parent, inMst, pq, top, rest);
  }

  lemma JoinShape(adj: WAdj, key: seq<int>, parent: seq<int>, inMst: seq<bool>, u: int)
    requires Shape(adj, key, parent, inMst) && 0 <= u < |adj|
    ensures Shape(adj, key, parent, inMst[u := true])
    ensures Frozen(key, parent, inMst, key, parent, inMst[u := true])
  {
  }

  lemma JoinFringe(adj: WAdj, key: seq<int>, parent: seq<int>, inMst: seq<bool>, pq: seq<Entry>,
                   top: Entry, rest: seq<Entry>)
    requires Shape(adj, key, parent, inMst) && Fringe(adj, key, parent, inMst, pq, -1, 0)
    requires top in pq && 0 <= top.1 < |adj|
    requires forall e :: e in pq && e != top ==> e in rest
    requires forall e :: e in rest ==> e in pq
    requires Shape(adj, key, parent, inMst[top.1 := true])
    ensures Fringe(adj, key, parent, inMst[top.1 := true], rest, top.1, 0)
  {
    var inMst' := inMst[top.1 := true];
    forall k | 0 <= k < |rest|
      ensures 0 <= rest[k].1 < |adj| && (rest[k].1 == 0 || parent[rest[k].1] != -1)
    {
      assert rest[k] in pq;
    }
    forall x, i | 0 <= x < |adj| && inMst'[x] && 0 <= i < |adj[x]| && x != top.1
      ensures Covered(key, inMst', adj[x][i])
    {
      assert Covered(key, inMst, adj[x][i]);
    }
  }

  lemma JoinTree(adj: WAdj, key: seq<int>, parent: seq<int>, inMst: seq<bool>, pq: seq<Entry>, order: seq<int>, u: int)
    requires Inv(adj, key, parent, inMst, pq, order) && 0 <= u < |adj| && !inMst[u]
    requires exists k :: 0 <= k < |pq| && pq[k].1 == u
    ensures Tree(adj, parent, inMst[u := true], order + [u])
  {
    var order' := order + [u];
    var k :| 0 <= k < |pq| && pq[k].1 == u;
    assert u !in order;
    forall i | 0 <= i < |order'|
      ensures ParentBefore(parent, order', i)
    {
      if i < |order| {
        assert ParentBefore(parent, order, i);
        assert order'[..i] == order[..i];
      } else {
        assert pq[k].1 == 0 || parent[pq[k].1] != -1;
        assert order'[..i] == order;
      }
    }
  }

  /** Part way through u's list, u having just joined the tree. */
  ghost predicate Partial(adj: WAdj, key0: seq<int>, parent0: seq<int>, inMst0: seq<bool>,
                          key: seq<int>, parent: seq<int>, inMst: seq<bool>, pq: seq<Entry>, order: seq<int>,
                          u: int, j: int)
  {
    && Shape(adj, key, parent, inMst) && Tree(adj, parent, inMst, order) && |order| > 0
    && 0 <= u < |adj| && inMst[u] && 0 <= j <= |adj[u]|
    && Fringe(adj, key, parent, inMst, pq, u, j)
    && Frozen(key0, parent0, inMst0, key, parent, inMst)
    && (forall v :: 0 <= v < |adj| && !inMst0[v] && inMst[v] ==> v == u)
  }

  /** The relaxation loop over u's edges. */
  method RelaxFrom(adj: WAdj, key0: seq<int>, parent0: seq<int>, inMst: seq<bool>, pq0: seq<Entry>,
                   ghost order: seq<int>, u: int)
    returns (key: seq<int>, parent: seq<int>, inMst': seq<bool>, pq: seq<Entry>, ghost order': seq<int>)
    requires exists inMst0 :: Partial(adj, key0, parent0, inMst0, key0, parent0, inMst, pq0, order, u, 0)
    ensures Inv(adj, key, parent, inMst', pq, order') && order' == order && inMst' == inMst
    ensures Frozen(key0, parent0, inMst, key, parent, inMst)
  {
    ghost var inMst0 :| Partial(adj, key0, parent0, inMst0, key0, parent0, inMst, pq0, order, u, 0);
    key, parent, inMst', pq, order' := key0, parent0, inMst, pq0, order;
    var j := 0;
    while j < |adj[u]|
      invariant Partial(adj, key0, parent0, inMst0, key, parent, inMst, pq, order, u, j)
      invariant Frozen(key0, parent0, inMst, key, parent, inMst)
    {
      key, parent, pq := RelaxArc(adj, key0, parent0, inMst0, key, parent, inMst, pq, order, u, j);
      j := j + 1;
    }
  }

  /** One iteration: `if (!inMST[v] && weight < key[v]) { key[v] = weight;
      pq.push({key[v], v}); parent[v] = u; }`. */
  method RelaxArc(adj: WAdj, key0: seq<int>, parent0: seq<int>, ghost inMst0: seq<bool>,
                  key: seq<int>, parent: seq<int>, inMst: seq<bool>, pq: seq<Entry>, ghost order: seq<int>,
                  u: int, j: int)
    returns (key': seq<int>, parent': seq<int>, pq': seq<Entry>)
    requires Partial(adj, key0, parent0, inMst0, key, parent, inMst, pq, order, u, j) && j < |adj[u]|
    requires Frozen(key0, parent0, inMst, key, parent, inMst)
    ensures Partial(adj, key0, parent0, inMst0, key', parent', inMst, pq', order, u, j + 1)
    ensures Frozen(key0, parent0, inMst, key', parent', inMst)
  {
    var a := adj[u][j];
    if !inMst[a.to] && a.weight < key[a.to] {
      key', parent', pq' := key[a.to := a.weight], parent[a.to := u], pq + [(a.weight, a.to)];
      Improve(adj, key0, parent0, inMst0, key, parent, inMst, pq, order, u, j);
    } else {
      key', parent', pq' := key, parent, pq;
      Satisfied(adj, key0, parent0, inMst0, key, parent, inMst, pq, order, u, j);
    }
  }

  lemma Satisfied(adj: WAdj, key0: seq<int>, parent0: seq<int>, inMst0: seq<bool>,
                  key: seq<int>, parent: seq<int>, inMst: seq<bool>, pq: seq<Entry>, order: seq<int>,
                  u: int, j: int)
    requires Partial(adj, key0, parent0, inMst0, key, parent, inMst, pq, order, u, j) && j < |adj[u]|
    requires inMst[adj[u][j].to] || key[adj[u][j].to] <= adj[u][j].weight
    ensures Partial(adj, key0, parent0, inMst0, key, parent, inMst, pq, order, u, j + 1)
  {
    assert Covered(key, inMst, adj[u][j]);
  }

  lemma Improve(adj: WAdj, key0: seq<int>, parent0: seq<int>, inMst0: seq<bool>,
                key: seq<int>, parent: seq<int>, inMst: seq<bool>, pq: seq<Entry>, order: seq<int>,
                u: int, j: int)
    requires Partial(adj, key0, parent0, inMst0, key, parent, inMst, pq, order, u, j) && j < |adj[u]|
    requires Frozen(key0, parent0, inMst, key, parent, inMst)
    requires !inMst[adj[u][j].to] && adj[u][j].weight < key[adj[u][j].to]
    ensures Partial(adj, key0, parent0, inMst0, key[adj[u][j].to := adj[u][j].weight],
                    parent[adj[u][j].to := u], inMst, pq + [(adj[u][j].weight, adj[u][j].to)], order, u, j + 1)
    ensures Frozen(key0, parent0, inMst, key[adj[u][j].to := adj[u][j].weight], parent[adj[u][j].to := u], inMst)
  {
    var a := adj[u][j];
    var v := a.to;
    assert order[0] == 0 && inMst[0];
    ImproveShape(adj, key, parent, inMst, u, j);
    ImproveFringe(adj, key, parent, inMst, pq, u, j);
    ImproveTree(adj, parent, inMst, order, v, u);
  }

  /** Re-parenting a vertex outside the tree leaves the tree alone. */
  lemma ImproveTree(adj: WAdj, parent: seq<int>, inMst: seq<bool>, order: seq<int>, v: int, u: int)
    requires |parent| == |adj| && |inMst| == |adj| && Tree(adj, parent, inMst, order)
    requires 0 <= v < |adj| && !inMst[v]
    ensures Tree(adj, parent[v := u], inMst, order)
  {
    var parent' := parent[v := u];
    forall i | 0 <= i < |order|
      ensures ParentBefore(parent', order, i)
    {
      assert ParentBefore(parent, order, i);
    }
  }

  lemma ImproveShape(adj: WAdj, key: seq<int>, parent: seq<int>, inMst: seq<bool>, u: int, j: int)
    requires Shape(adj, key, parent, inMst) && 0 <= u < |adj| && inMst[u] && inMst[0] && 0 <= j < |adj[u]|
    requires !inMst[adj[u][j].to] && adj[u][j].weight < key[adj[u][j].to]
    ensures Shape(adj, key[adj[u][j].to := adj[u][j].weight], parent[adj[u][j].to := u], inMst)
  {
    assert adj[u][j] in adj[u];
  }

  lemma ImproveFringe(adj: WAdj, key: seq<int>, parent: seq<int>, inMst: seq<bool>, pq: seq<Entry>, u: int, j: int)
    requires Shape(adj, key, parent, inMst) && 0 <= u < |adj| && inMst[u] && inMst[0] && 0 <= j < |adj[u]|
    requires !inMst[adj[u][j].to] && adj[u][j].weight < key[adj[u][j].to]
    requires Fringe(adj, key, parent, inMst, pq, u, j)
    requires Shape(adj, key[adj[u][j].to := adj[u][j].weight], parent[adj[u][j].to := u], inMst)
    ensures Fringe(adj, key[adj[u][j].to := adj[u][j].weight], parent[adj[u][j].to := u], inMst,
                   pq + [(adj[u][j].weight, adj[u][j].to)], u, j + 1)
  {
    var a := adj[u][j];
    var key', parent', pq' := key[a.to := a.weight], parent[a.to := u], pq + [(a.weight, a.to)];
    forall x, i | 0 <= x < |adj| && inMst[x] && 0 <= i < |adj[x]| && (x != u || i < j + 1)
      ensures Covered(key', inMst, adj[x][i])
    {
      if x != u || i < j {
        assert Covered(key, inMst, adj[x][i]);
      }
    }
  }

  /** With the queue empty, every vertex outside the tree still has its
      initial key and parent, and the parent links lead every tree vertex
      back to 0. */
  lemma Finish(adj: WAdj, key: seq<int>, parent: seq<int>, inMst: seq<bool>, order: seq<int>)
    requires Inv(adj, key, parent, inMst, [], order)
    ensures Spanning(adj, key, parent, inMst)
  {
    assert |order| > 0 && inMst[0];
    forall u, j | 0 <= u < |adj| && inMst[u] && 0 <= j < |adj[u]| && adj[u][j].weight < IntMax
      ensures inMst[adj[u][j].to]
    {
      assert Covered(key, inMst, adj[u][j]);
    }
    forall v | 0 < v < |adj| && inMst[v]
      ensures parent[v] != -1
    {
      var i :| 0 <= i < |order| && order[i] == v;
      assert ParentBefore(parent, order, i);
    }
    Seqs.DistinctRangeLength(order, |adj|);
    forall v | 0 <= v < |adj| && inMst[v]
      ensures ReachesRoot(parent, v, |adj|)
    {
      var i :| 0 <= i < |order| && order[i] == v;
      OrderRoot(parent, order, i);
      RootsMonotone(parent, v, i, |adj|);
    }
  }

  /** The i-th vertex to join reaches 0 within i parent steps. */
  lemma {:induction false} OrderRoot(parent: seq<int>, order: seq<int>, i: nat)
    requires ParentsFirst(parent, order) && i < |order|
    ensures ReachesRoot(parent, order[i], i)
    decreases i
  {
    var v := order[i];
    assert ParentBefore(parent, order, i);
    if v != 0 {
      var k :| 0 <= k < i && order[k] == parent[v];
      OrderRoot(parent, order, k);
      RootsMonotone(parent, order[k], k, i - 1);
      assert ReachesRoot(parent, parent[v], i - 1);
    }
  }

  lemma {:induction false} RootsMonotone(parent: seq<int>, v: int, k: nat, k': nat)
    requires ReachesRoot(parent, v, k) && k <= k'
    ensures ReachesRoot(parent, v, k')
    decreases k
  {
    if v != 0 {
      RootsMonotone(parent, parent[v], k - 1, k' - 1);
    }
  }

  // ---------------------------------------------------------------------
  // What the tree spans

  /** No arc of the walk weighs `IntMax`: such an edge never passes the
      `weight < key[v]` test against an initial key. */
  predicate Light(arcs: seq<Arc>) {
    forall k :: 0 <= k < |arcs| ==> arcs[k].weight < IntMax
  }

  /** v can be reached from 0 along arcs lighter than `IntMax`. */
  ghost predicate LightReachable(adj: WAdj, v: int) {
    exists arcs :: IsWalk(adj, 0, arcs) && Light(arcs) && End(0, arcs) == v
  }

  /** The tree is exactly the set of vertices reachable from 0 by light
      walks; in a graph connected by such edges, the parent links form a
      spanning tree rooted at 0. */
  lemma TreeIsComponent(adj: WAdj, key: seq<int>, parent: seq<int>, inMst: seq<bool>, v: int)
    requires Spanning(adj, key, parent, inMst) && 0 <= v < |adj|
    ensures inMst[v] <==> LightReachable(adj, v)
  {
    if inMst[v] {
      RootWalk(adj, key, parent, inMst, v, |adj|);
    }
    forall arcs | IsWalk(adj, 0, arcs) && Light(arcs) && End(0, arcs) == v
      ensures inMst[v]
    {
      LightWalkInTree(adj, key, parent, inMst, arcs);
    }
  }

  /** Walking the parent links backwards from 0 is a light walk to v. */
  lemma {:induction false} RootWalk(adj: WAdj, key: seq<int>, parent: seq<int>, inMst: seq<bool>, v: int, k: nat)
    requires Spanning(adj, key, parent, inMst) && 0 <= v < |adj| && inMst[v] && ReachesRoot(parent, v, k)
    ensures LightReachable(adj, v)
    decreases k
  {
    if v == 0 {
      assert IsWalk(adj, 0, []) && Light([]);
    } else {
      var p := parent[v];
      RootWalk(adj, key, parent, inMst, p, k - 1);
      var arcs :| IsWalk(adj, 0, arcs) && Light(arcs) && End(0, arcs) == p;
      WalkExtend(adj, 0, arcs, Arc(v, key[v]));
      assert Light(arcs + [Arc(v, key[v])]);
    }
  }

  /** A light walk from 0 never leaves the tree. */
  lemma {:induction false} LightWalkInTree(adj: WAdj, key: seq<int>, parent: seq<int>, inMst: seq<bool>, arcs: seq<Arc>)
    requires Spanning(adj, key, parent, inMst) && IsWalk(adj, 0, arcs) && Light(arcs)
    ensures 0 <= End(0, arcs) < |adj| && inMst[End(0, arcs)]
    decreases |arcs|
  {
    WalkEnd(adj, 0, arcs);
    if |arcs| > 0 {
      var init := arcs[..|arcs| - 1];
      var a := arcs[|arcs| - 1];
      assert Light(init);
      LightWalkInTree(adj, key, parent, inMst, init);
      var u := End(0, init);
      var j :| 0 <= j < |adj[u]| && adj[u][j] == a;
    }
  }
}
