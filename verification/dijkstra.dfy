/** `Graph::dijkstra` of graph-02-SSSP-Dijkstra.cpp: single-source shortest
    paths with a lazy priority queue. A vertex may be queued several times;
    an entry whose distance is larger than the vertex's current `dist` is
    stale and skipped. `dist` uses `IntMax` for "not reached". */
module Dijkstra {
  import opened Weighted
  import opened MinQueue

  // ---------------------------------------------------------------------
  // The termination measure: distances only go down.

  function Sum(s: seq<int>): int {
    if |s| == 0 then 0 else Sum(s[..|s| - 1]) + s[|s| - 1]
  }

  lemma {:induction false} SumUpdate(s: seq<int>, i: int, x: int)
    requires 0 <= i < |s|
    ensures Sum(s[i := x]) == Sum(s) - s[i] + x
  {
    var init := s[..|s| - 1];
    if i == |s| - 1 {
      assert s[i := x][..|s| - 1] == init;
    } else {
      SumUpdate(init, i, x);
      assert s[i := x][..|s| - 1] == init[i := x];
    }
  }

  lemma {:induction false} SumNonNegative(s: seq<int>)
    requires forall k :: 0 <= k < |s| ==> s[k] >= 0
    ensures Sum(s) >= 0
  {
    if |s| > 0 {
      SumNonNegative(s[..|s| - 1]);
    }
  }

  // ---------------------------------------------------------------------
  // The loop invariant

  /** d is the weight of some walk from src to v. */
  ghost predicate Achieved(adj: WAdj, src: int, v: int, d: int) {
    exists arcs :: IsWalk(adj, src, arcs) && End(src, arcs) == v && Weight(arcs) == d
  }

  /** The distances: the source at 0, every other one non-negative and at
      most `IntMax`, and every finite one the weight of an actual walk. */
  ghost predicate Bounds(adj: WAdj, src: int, dist: seq<int>) {
    && |dist| == |adj| && IsVertex(adj, src) && dist[src] == 0
    && (forall v :: 0 <= v < |dist| ==> 0 <= dist[v] <= IntMax)
    && (forall v :: 0 <= v < |dist| && dist[v] < IntMax ==> Achieved(adj, src, v, dist[v]))
  }

  /** Every queue entry names a vertex, is finite, and is no smaller than
      that vertex's current distance. */
  predicate Queued(adj: WAdj, dist: seq<int>, pq: seq<Entry>)
    requires |dist| == |adj|
  {
    forall k :: 0 <= k < |pq| ==> 0 <= pq[k].1 < |adj| && dist[pq[k].1] <= pq[k].0 < IntMax
  }

  /** No arc out of u can improve a distance. */
  predicate Relaxed(adj: WAdj, dist: seq<int>, u: int)
    requires |dist| == |adj| && 0 <= u < |adj| && WellFormed(adj)
  {
    dist[u] == IntMax
    || forall j :: 0 <= j < |adj[u]| ==> dist[adj[u][j].to] <= dist[u] + adj[u][j].weight
  }

  /** Every vertex other than x is relaxed, or is queued with its current
      distance and so will be relaxed later. */
  predicate Pending(adj: WAdj, dist: seq<int>, pq: seq<Entry>, x: int)
    requires |dist| == |adj| && WellFormed(adj)
  {
    forall u :: 0 <= u < |adj| && u != x ==> (dist[u], u) in pq || Relaxed(adj, dist, u)
  }

  ghost predicate Inv(adj: WAdj, src: int, dist: seq<int>, pq: seq<Entry>) {
    && WellFormed(adj) && NonNegative(adj) && Bounds(adj, src, dist)
    && Queued(adj, dist, pq) && Pending(adj, dist, pq, -1)
  }

  /** What the loop leaves behind: the distances satisfy every arc. */
  ghost predicate Converged(adj: WAdj, src: int, dist: seq<int>) {
    && WellFormed(adj) && NonNegative(adj) && Bounds(adj, src, dist)
    && forall u :: 0 <= u < |adj| ==> Relaxed(adj, dist, u)
  }

  // ---------------------------------------------------------------------
  // The algorithm

  /** `dijkstra(src)`: the distances it would print. */
  method ShortestPaths(adj: WAdj, src: int) returns (dist: seq<int>)
    requires WellFormed(adj) && NonNegative(adj) && IsVertex(adj, src)
    ensures |dist| == |adj| && dist[src] == 0
    ensures forall v :: 0 <= v < |dist| ==> 0 <= dist[v] <= IntMax
    ensures forall v :: 0 <= v < |dist| && dist[v] < IntMax ==> Achieved(adj, src, v, dist[v])
    ensures forall u, j :: 0 <= u < |adj| && 0 <= j < |adj[u]| && dist[u] < IntMax ==>
              dist[adj[u][j].to] <= dist[u] + adj[u][j].weight
    ensures forall v :: 0 <= v < |adj| && !Reachable(adj, src, v) ==> dist[v] == IntMax
  {
    dist := seq(|adj|, v => if v == src then 0 else IntMax);
    var pq: seq<Entry> := [(0, src)];
    Start(adj, src, dist);
    while |pq| > 0
      invariant Inv(adj, src, dist, pq)
      decreases Sum(dist), |pq|
    {
      SumNonNegative(dist);
      dist, pq := Step(adj, src, dist, pq);
    }
    Finish(adj, src, dist);
  }

  lemma Start(adj: WAdj, src: int, dist: seq<int>)
    requires WellFormed(adj) && NonNegative(adj) && IsVertex(adj, src)
    requires dist == seq(|adj|, v => if v == src then 0 else IntMax)
    ensures Inv(adj, src, dist, [(0, src)])
  {
    assert IsWalk(adj, src, []);
    assert Achieved(adj, src, src, 0);
  }

  /** `if (d > dist[u]) continue;` keeps the invariant: the entry removed was
      not the one any vertex was waiting on. */
  lemma Stale(adj: WAdj, src: int, dist: seq<int>, pq: seq<Entry>, top: Entry, rest: seq<Entry>)
    requires Inv(adj, src, dist, pq) && top in pq && 0 <= top.1 < |adj| && top.0 > dist[top.1]
    requires forall e :: e in pq && e != top ==> e in rest
    requires forall e :: e in rest ==> e in pq
    ensures Inv(adj, src, dist, rest)
  {
    forall k | 0 <= k < |rest|
      ensures 0 <= rest[k].1 < |adj| && dist[rest[k].1] <= rest[k].0 < IntMax
    {
      assert rest[k] in pq;
    }
  }

  /** The relaxation loop for the popped vertex u, whose entry was current. */
  method RelaxFrom(adj: WAdj, src: int, u: int, dist0: seq<int>, pq: seq<Entry>, rest: seq<Entry>)
    returns (dist: seq<int>, pq': seq<Entry>)
    requires Inv(adj, src, dist0, pq) && 0 <= u < |adj| && (dist0[u], u) in pq
    requires forall e :: e in pq && e != (dist0[u], u) ==> e in rest
    requires forall e :: e in rest ==> e in pq
    requires |rest| == |pq| - 1
    ensures Inv(adj, src, dist, pq')
    ensures |dist| == |dist0| && forall v :: 0 <= v < |dist| ==> dist[v] <= dist0[v]
    ensures Sum(dist) <= Sum(dist0) && |pq'| < |pq| + Sum(dist0) - Sum(dist)
  {
    PopCurrent(adj, src, u, dist0, pq, rest);
    var du := dist0[u];
    dist, pq' := dist0, rest;
    var j := 0;
    while j < |adj[u]|
      invariant 0 <= j <= |adj[u]|
      invariant Partial(adj, src, u, du, dist0, rest, dist, pq', j)
    {
      dist, pq' := RelaxArc(adj, src, u, du, dist0, rest, dist, pq', j);
      j := j + 1;
    }
    RelaxDone(adj, src, u, du, dist0, rest, dist, pq');
  }

  lemma PopCurrent(adj: WAdj, src: int, u: int, dist: seq<int>, pq: seq<Entry>, rest: seq<Entry>)
    requires Inv(adj, src, dist, pq) && 0 <= u < |adj| && (dist[u], u) in pq
    requires forall e :: e in pq && e != (dist[u], u) ==> e in rest
    requires forall e :: e in rest ==> e in pq
    ensures Partial(adj, src, u, dist[u], dist, rest, dist, rest, 0)
  {
    forall k | 0 <= k < |rest|
      ensures 0 <= rest[k].1 < |adj| && dist[rest[k].1] <= rest[k].0 < IntMax
    {
      assert rest[k] in pq;
    }
    var k :| 0 <= k < |pq| && pq[k] == (dist[u], u);
  }

  /** Part way through u's list: the first j arcs are satisfied, u's own
      distance is du, nothing grew, and each new queue entry was paid for by
      a strict decrease of some distance. */
  ghost predicate Partial(adj: WAdj, src: int, u: int, du: int, dist0: seq<int>, pq0: seq<Entry>,
                          dist: seq<int>, pq: seq<Entry>, j: int)
  {
    && Scanning(adj, src, u, du, dist, pq)
    && 0 <= j <= |adj[u]| && ScannedTo(adj, u, du, dist, j)
    && Paid(dist0, pq0, dist, pq)
  }

  /** The invariant with u's own obligation lifted, u's distance being du. */
  ghost predicate Scanning(adj: WAdj, src: int, u: int, du: int, dist: seq<int>, pq: seq<Entry>) {
    && WellFormed(adj) && NonNegative(adj) && Bounds(adj, src, dist)
    && 0 <= u < |adj| && dist[u] == du < IntMax
    && Queued(adj, dist, pq) && Pending(adj, dist, pq, u)
  }

  /** The first j arcs out of u are satisfied. */
  predicate ScannedTo(adj: WAdj, u: int, du: int, dist: seq<int>, j: int)
    requires WellFormed(adj) && |dist| == |adj| && 0 <= u < |adj| && 0 <= j <= |adj[u]|
  {
    forall k :: 0 <= k < j ==> dist[adj[u][k].to] <= du + adj[u][k].weight
  }

  /** No distance grew since dist0, and the queue grew by at most the total
      decrease. */
  predicate Paid(dist0: seq<int>, pq0: seq<Entry>, dist: seq<int>, pq: seq<Entry>) {
    && |dist0| == |dist| && (forall v :: 0 <= v < |dist| ==> dist[v] <= dist0[v])
    && Sum(dist) <= Sum(dist0) && |pq| <= |pq0| + Sum(dist0) - Sum(dist)
  }

  /** One iteration: `if (dist[u] + weight < dist[v]) { dist[v] = ...;
      pq.push({dist[v], v}); }`. */
  method RelaxArc(adj: WAdj, src: int, u: int, du: int, dist0: seq<int>, pq0: seq<Entry>,
                  dist: seq<int>, pq: seq<Entry>, j: int)
    returns (dist': seq<int>, pq': seq<Entry>)
    requires Partial(adj, src, u, du, dist0, pq0, dist, pq, j) && j < |adj[u]|
    ensures Partial(adj, src, u, du, dist0, pq0, dist', pq', j + 1)
  {
    var a := adj[u][j];
    if du + a.weight < dist[a.to] {
      dist' := dist[a.to := du + a.weight];
      pq' := pq + [(du + a.weight, a.to)];
      Improve(adj, src, u, du, dist0, pq0, dist, pq, j);
    } else {
      dist', pq' := dist, pq;
      Satisfied(adj, src, u, du, dist0, pq0, dist, pq, j);
    }
  }

  lemma Satisfied(adj: WAdj, src: int, u: int, du: int, dist0: seq<int>, pq0: seq<Entry>,
                  dist: seq<int>, pq: seq<Entry>, j: int)
    requires Partial(adj, src, u, du, dist0, pq0, dist, pq, j) && j < |adj[u]|
    requires dist[adj[u][j].to] <= du + adj[u][j].weight
    ensures Partial(adj, src, u, du, dist0, pq0, dist, pq, j + 1)
  {
    assert ScannedTo(adj, u, du, dist, j + 1);
  }

  lemma Improve(adj: WAdj, src: int, u: int, du: int, dist0: seq<int>, pq0: seq<Entry>,
                dist: seq<int>, pq: seq<Entry>, j: int)
    requires Partial(adj, src, u, du, dist0, pq0, dist, pq, j) && j < |adj[u]|
    requires du + adj[u][j].weight < dist[adj[u][j].to]
    ensures Partial(adj, src, u, du, dist0, pq0,
                    dist[adj[u][j].to := du + adj[u][j].weight],
                    pq + [(du + adj[u][j].weight, adj[u][j].to)], j + 1)
  {
    var a := adj[u][j];
    var v, nd := a.to, du + a.weight;
    assert a.weight >= 0;
    ImproveBounds(adj, src, u, du, dist, j);
    ImprovePending(adj, u, dist, pq, v, nd);
    ImprovePaid(dist0, pq0, dist, pq, v, nd);
    assert ScannedTo(adj, u, du, dist[v := nd], j + 1);
  }

  /** Lowering one distance by at least 1 pays for one queue entry. */
  lemma ImprovePaid(dist0: seq<int>, pq0: seq<Entry>, dist: seq<int>, pq: seq<Entry>, v: int, nd: int)
    requires Paid(dist0, pq0, dist, pq) && 0 <= v < |dist| && nd < dist[v]
    ensures Paid(dist0, pq0, dist[v := nd], pq + [(nd, v)])
  {
    SumUpdate(dist, v, nd);
  }

  /** The lowered distance is that of u's walk extended by the arc. */
  lemma ImproveBounds(adj: WAdj, src: int, u: int, du: int, dist: seq<int>, j: int)
    requires WellFormed(adj) && NonNegative(adj) && Bounds(adj, src, dist)
    requires 0 <= u < |adj| && 0 <= j < |adj[u]| && dist[u] == du < IntMax
    requires du + adj[u][j].weight < dist[adj[u][j].to]
    ensures Bounds(adj, src, dist[adj[u][j].to := du + adj[u][j].weight])
  {
    var a := adj[u][j];
    assert a.weight >= 0;
    assert Achieved(adj, src, u, du);
    var arcs :| IsWalk(adj, src, arcs) && End(src, arcs) == u && Weight(arcs) == du;
    WalkExtend(adj, src, arcs, a);
    assert Achieved(adj, src, a.to, du + a.weight);
  }

  /** Lowering `dist[v]` and queueing it keeps everyone else relaxed or
      queued: v is queued now, and a relaxed vertex stays relaxed when a
      neighbour's distance goes down. */
  lemma ImprovePending(adj: WAdj, u: int, dist: seq<int>, pq: seq<Entry>, v: int, nd: int)
    requires WellFormed(adj) && |dist| == |adj| && 0 <= v < |adj| && nd < dist[v]
    requires Queued(adj, dist, pq) && Pending(adj, dist, pq, u) && nd < IntMax && 0 <= nd
    ensures Queued(adj, dist[v := nd], pq + [(nd, v)])
    ensures Pending(adj, dist[v := nd], pq + [(nd, v)], u)
  {
    var dist', pq' := dist[v := nd], pq + [(nd, v)];
    forall x | 0 <= x < |adj| && x != u
      ensures (dist'[x], x) in pq' || Relaxed(adj, dist', x)
    {
      if x != v && (dist[x], x) !in pq {
        assert Relaxed(adj, dist, x);
      }
    }
  }

  lemma RelaxDone(adj: WAdj, src: int, u: int, du: int, dist0: seq<int>, pq0: seq<Entry>,
                  dist: seq<int>, pq: seq<Entry>)
    requires 0 <= u < |adj| && Partial(adj, src, u, du, dist0, pq0, dist, pq, |adj[u]|)
    ensures Inv(adj, src, dist, pq)
  {
    assert Relaxed(adj, dist, u);
  }

  lemma Finish(adj: WAdj, src: int, dist: seq<int>)
    requires Inv(adj, src, dist, [])
    ensures Converged(adj, src, dist)
    ensures |dist| == |adj| && dist[src] == 0
    ensures forall v :: 0 <= v < |dist| ==> 0 <= dist[v] <= IntMax
    ensures forall v :: 0 <= v < |dist| && dist[v] < IntMax ==> Achieved(adj, src, v, dist[v])
    ensures forall u, j :: 0 <= u < |adj| && 0 <= j < |adj[u]| && dist[u] < IntMax ==>
              dist[adj[u][j].to] <= dist[u] + adj[u][j].weight
    ensures forall v :: 0 <= v < |adj| && !Reachable(adj, src, v) ==> dist[v] == IntMax
  {
    forall u, j | 0 <= u < |adj| && 0 <= j < |adj[u]| && dist[u] < IntMax
      ensures dist[adj[u][j].to] <= dist[u] + adj[u][j].weight
    {
      assert Relaxed(adj, dist, u);
    }
    forall v | 0 <= v < |adj| && dist[v] < IntMax
      ensures Reachable(adj, src, v)
    {
      assert Achieved(adj, src, v, dist[v]);
    }
  }

  /** One round of the loop: pop the least entry, and skip it or relax from
      its vertex. */
  method Step(adj: WAdj, src: int, dist: seq<int>, pq: seq<Entry>) returns (dist': seq<int>, pq': seq<Entry>)
    requires Inv(adj, src, dist, pq) && |pq| > 0
    ensures Inv(adj, src, dist', pq')
    ensures |dist'| == |dist| && forall v :: 0 <= v < |dist| ==> dist'[v] <= dist[v]
    ensures Pop(pq).0.0 > dist[Pop(pq).0.1] ==> dist' == dist
    ensures 0 <= Sum(dist') <= Sum(dist) && (Sum(dist') < Sum(dist) || |pq'| < |pq|)
  {
    var top := Pop(pq);
    var (d, u) := top.0;
    if d > dist[u] {
      Stale(adj, src, dist, pq, top.0, top.1);
      dist', pq' := dist, top.1;
    } else {
      dist', pq' := RelaxFrom(adj, src, u, dist, pq, top.1);
    }
    SumNonNegative(dist');
  }

  // ---------------------------------------------------------------------
  // Optimality

  /** Once every arc is satisfied, no walk from the source is shorter than
      the distance recorded at its end (capped at `IntMax`). */
  lemma {:induction false} NoShorterWalk(adj: WAdj, src: int, dist: seq<int>, arcs: seq<Arc>)
    requires Converged(adj, src, dist) && IsWalk(adj, src, arcs)
    ensures IsVertex(adj, End(src, arcs)) && dist[End(src, arcs)] <= Weight(arcs)
    decreases |arcs|
  {
    WalkEnd(adj, src, arcs);
    if |arcs| > 0 {
      var init := arcs[..|arcs| - 1];
      var a := arcs[|arcs| - 1];
      NoShorterWalk(adj, src, dist, init);
      var u := End(src, init);
      var k :| 0 <= k < |adj[u]| && adj[u][k] == a;
      assert Relaxed(adj, dist, u);
      assert a.weight >= 0;
    }
  }

  /** The distances are exactly the shortest-walk weights: a finite `dist[v]`
      is the weight of a walk to v and no walk to v weighs less; `IntMax`
      means unreachable, or reachable only by walks of weight `IntMax` or
      more. */
  lemma DistanceIsShortest(adj: WAdj, src: int, dist: seq<int>, v: int)
    requires Converged(adj, src, dist) && 0 <= v < |adj|
    ensures dist[v] < IntMax ==> Achieved(adj, src, v, dist[v])
    ensures forall arcs :: IsWalk(adj, src, arcs) && End(src, arcs) == v ==> dist[v] <= Weight(arcs)
  {
    forall arcs | IsWalk(adj, src, arcs) && End(src, arcs) == v
      ensures dist[v] <= Weight(arcs)
    {
      NoShorterWalk(adj, src, dist, arcs);
    }
  }
}
