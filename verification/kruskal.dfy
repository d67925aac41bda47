/** `kruskalMST` of graph-04-MST-Kruskal-DSU.cpp: sort the edges by weight, then
    keep every edge whose endpoints the disjoint-set union places in different
    sets, stopping once V-1 edges are kept.

    Which vertices a list of edges connects is described independently of the
    disjoint-set union by `Labels`, a naive relabelling ("quick-find"): adding an
    edge u-v renames v's whole class to u's label. */
module Kruskal {
  import Sorting
  import Seqs
  import opened Dsu

  datatype Edge = Edge(src: int, dest: int, weight: int)

  /** `compareEdges`: strictly lighter first. */
  function CompareEdges(a: Edge, b: Edge): bool {
    a.weight < b.weight
  }

  lemma CompareEdgesIsStrictOrder()
    ensures Sorting.StrictOrder(CompareEdges)
  {
  }

  predicate EdgesIn(es: seq<Edge>, n: int) {
    forall k :: 0 <= k < |es| ==> 0 <= es[k].src < n && 0 <= es[k].dest < n
  }

  /** Weights never decrease along the list. */
  predicate NonDecreasing(es: seq<Edge>) {
    forall i, j :: 0 <= i < j < |es| ==> es[i].weight <= es[j].weight
  }

  function TotalWeight(es: seq<Edge>): int {
    if |es| == 0 then 0 else TotalWeight(es[..|es| - 1]) + es[|es| - 1].weight
  }

  /** idx lists, in increasing order, positions below `bound` at which s holds
      the elements of sub. */
  predicate Picks(sub: seq<Edge>, s: seq<Edge>, idx: seq<int>, bound: int)
    requires 0 <= bound <= |s|
  {
    && |idx| == |sub|
    && (forall k :: 0 <= k < |idx| ==> 0 <= idx[k] < bound && sub[k] == s[idx[k]])
    && (forall a, b :: 0 <= a < b < |idx| ==> idx[a] < idx[b])
  }

  /** sub is s with some elements left out, the rest kept in order. */
  ghost predicate Subsequence(sub: seq<Edge>, s: seq<Edge>) {
    exists idx :: Picks(sub, s, idx, |s|)
  }

  /** A subsequence of a prefix is a sub-multiset of it. */
  lemma {:induction false} PicksMultiset(sub: seq<Edge>, s: seq<Edge>, idx: seq<int>, bound: int)
    requires 0 <= bound <= |s| && Picks(sub, s, idx, bound)
    ensures multiset(sub) <= multiset(s[..bound])
  {
    if |sub| > 0 {
      var last := |sub| - 1;
      var j := idx[last];
      PicksInit(sub, s, idx, bound);
      PicksMultiset(sub[..last], s, idx[..last], j);
      assert sub == sub[..last] + [s[j]];
      PrefixSplit(s, j, bound);
    }
  }

  /** Without its last pick, a pick list stays below that pick's index. */
  lemma PicksInit(sub: seq<Edge>, s: seq<Edge>, idx: seq<int>, bound: int)
    requires 0 <= bound <= |s| && Picks(sub, s, idx, bound) && |sub| > 0
    ensures 0 <= idx[|sub| - 1] < bound
    ensures Picks(sub[..|sub| - 1], s, idx[..|sub| - 1], idx[|sub| - 1])
  {
    var last := |sub| - 1;
    forall k | 0 <= k < last
      ensures 0 <= idx[..last][k] < idx[last] && sub[..last][k] == s[idx[..last][k]]
    {
      assert idx[k] < idx[last];
    }
  }

  lemma PrefixSplit(s: seq<Edge>, j: int, bound: int)
    requires 0 <= j < bound <= |s|
    ensures multiset(s[..j]) + multiset{s[j]} <= multiset(s[..bound])
  {
    assert s[..bound] == s[..j] + [s[j]] + s[j + 1..bound];
  }

  // ---------------------------------------------------------------------
  // Reference model of connectivity: labels

  /** Rename every vertex labelled like b to a's label. */
  function Merge(lab: seq<int>, a: int, b: int): (r: seq<int>)
    requires 0 <= a < |lab| && 0 <= b < |lab|
    ensures |r| == |lab|
    ensures r[a] == r[b]
  {
    seq(|lab|, i requires 0 <= i < |lab| => if lab[i] == lab[b] then lab[a] else lab[i])
  }

  /** Labels after adding the edges of es, in order, to n isolated vertices:
      two vertices carry the same label iff the edges connect them. */
  function Labels(es: seq<Edge>, n: nat): (lab: seq<int>)
    requires EdgesIn(es, n)
    ensures |lab| == n
  {
    if |es| == 0 then seq(n, i => i)
    else
      var e := es[|es| - 1];
      Merge(Labels(es[..|es| - 1], n), e.src, e.dest)
  }

  function LabelSet(lab: seq<int>): set<int> {
    set i | 0 <= i < |lab| :: lab[i]
  }

  /** A forest, built edge by edge: each edge joins two vertices that the
      edges before it did not already connect. */
  predicate IsForest(es: seq<Edge>, n: nat)
    requires EdgesIn(es, n)
  {
    forall k :: 0 <= k < |es| ==> JoinsNew(es, k, n)
  }

  /** The k-th edge joins two vertices that the edges before it leave apart. */
  predicate JoinsNew(es: seq<Edge>, k: int, n: nat)
    requires EdgesIn(es, n) && 0 <= k < |es|
  {
    var lab := Labels(es[..k], n);
    lab[es[k].src] != lab[es[k].dest]
  }

  /** Every edge of es joins two vertices that the edges of f connect. */
  predicate Spans(f: seq<Edge>, es: seq<Edge>, n: nat)
    requires EdgesIn(f, n) && EdgesIn(es, n)
  {
    var lab := Labels(f, n);
    forall k :: 0 <= k < |es| ==> lab[es[k].src] == lab[es[k].dest]
  }

  lemma InitialLabelSet(n: nat)
    ensures |LabelSet(seq(n, i => i))| == n
  {
    var lab: seq<int> := seq(n, i => i);
    assert LabelSet(lab) == Seqs.Range(n) by {
      forall v | v in Seqs.Range(n) ensures v in LabelSet(lab) {
        assert lab[v] == v;
      }
    }
    Seqs.RangeCard(n);
  }

  /** Merging two different classes removes exactly one label. */
  lemma MergeLabelSet(lab: seq<int>, a: int, b: int)
    requires 0 <= a < |lab| && 0 <= b < |lab| && lab[a] != lab[b]
    ensures LabelSet(Merge(lab, a, b)) == LabelSet(lab) - {lab[b]}
    ensures |LabelSet(Merge(lab, a, b))| == |LabelSet(lab)| - 1
  {
    var m := Merge(lab, a, b);
    forall l | l in LabelSet(lab) - {lab[b]} ensures l in LabelSet(m) {
      var i :| 0 <= i < |lab| && lab[i] == l;
      assert m[i] == l;
    }
    assert lab[b] in LabelSet(lab);
  }

  /** A forest on n >= 1 vertices leaves n - |f| classes, so it has at most n-1 edges. */
  lemma {:induction false} ForestClasses(f: seq<Edge>, n: nat)
    requires EdgesIn(f, n) && IsForest(f, n)
    ensures |LabelSet(Labels(f, n))| == n - |f|
  {
    if |f| == 0 {
      InitialLabelSet(n);
    } else {
      var g := f[..|f| - 1];
      assert IsForest(g, n) by {
        forall k | 0 <= k < |g| ensures JoinsNew(g, k, n) {
          assert JoinsNew(f, k, n);
          assert g[..k] == f[..k];
        }
      }
      ForestClasses(g, n);
      assert JoinsNew(f, |f| - 1, n);
      assert f[..|f| - 1] == g;
      MergeLabelSet(Labels(g, n), f[|f| - 1].src, f[|f| - 1].dest);
    }
  }

  lemma ForestSize(f: seq<Edge>, n: nat)
    requires n >= 1 && EdgesIn(f, n) && IsForest(f, n)
    ensures |f| <= n - 1
  {
    ForestClasses(f, n);
    var lab := Labels(f, n);
    assert lab[0] in LabelSet(lab);
  }

  /** With a single class left, every pair of vertices is connected. */
  lemma OneClass(lab: seq<int>, a: int, b: int)
    requires |LabelSet(lab)| == 1 && 0 <= a < |lab| && 0 <= b < |lab|
    ensures lab[a] == lab[b]
  {
    var ls := LabelSet(lab);
    assert lab[a] in ls && lab[b] in ls;
    assert |ls - {lab[a]}| == 0;
    assert lab[b] !in ls - {lab[a]};
  }

  // ---------------------------------------------------------------------
  // Agreement of the disjoint-set union with the labels

  /** The disjoint-set union groups exactly as the labels do. */
  predicate Agrees(d: Dsu, lab: seq<int>)
    requires Valid(d)
  {
    && |lab| == Size(d)
    && forall a, b :: 0 <= a < Size(d) && 0 <= b < Size(d) ==>
         (Root(d, a) == Root(d, b) <==> lab[a] == lab[b])
  }

  lemma UniteAgrees(d: Dsu, lab: seq<int>, u: int, v: int)
    requires Valid(d) && Agrees(d, lab) && 0 <= u < Size(d) && 0 <= v < Size(d)
    ensures Agrees(Unite(d, u, v), Merge(lab, u, v))
  {
    var d2 := Unite(d, u, v);
    var m := Merge(lab, u, v);
    forall a, b | 0 <= a < Size(d) && 0 <= b < Size(d)
      ensures Root(d2, a) == Root(d2, b) <==> m[a] == m[b]
    {
      var ru, rv := Root(d, u), Root(d, v);
      assert m[a] == (if lab[a] == lab[v] then lab[u] else lab[a]);
      assert m[b] == (if lab[b] == lab[v] then lab[u] else lab[b]);
      assert Root(d, a) in {ru, rv} <==> lab[a] == lab[v] || lab[a] == lab[u];
      assert Root(d, b) in {ru, rv} <==> lab[b] == lab[v] || lab[b] == lab[u];
    }
  }

  /** Merging keeps every connection already present. */
  lemma MergeKeeps(lab: seq<int>, a: int, b: int, x: int, y: int)
    requires 0 <= a < |lab| && 0 <= b < |lab| && 0 <= x < |lab| && 0 <= y < |lab|
    requires lab[x] == lab[y]
    ensures Merge(lab, a, b)[x] == Merge(lab, a, b)[y]
  {
  }

  // ---------------------------------------------------------------------
  // kruskalMST

  /** `sort(edges.begin(), edges.end(), compareEdges)`. */
  method SortEdges(edges: seq<Edge>, V: nat) returns (sorted: seq<Edge>)
    requires EdgesIn(edges, V)
    ensures multiset(sorted) == multiset(edges) && NonDecreasing(sorted)
    ensures EdgesIn(sorted, V)
  {
    CompareEdgesIsStrictOrder();
    sorted := Sorting.Sort(edges, CompareEdges);
    assert EdgesIn(sorted, V) by {
      forall k | 0 <= k < |sorted| ensures 0 <= sorted[k].src < V && 0 <= sorted[k].dest < V {
        assert sorted[k] in multiset(edges);
      }
    }
    assert NonDecreasing(sorted) by {
      forall a, b | 0 <= a < b < |sorted| ensures sorted[a].weight <= sorted[b].weight {
        assert !CompareEdges(sorted[b], sorted[a]);
      }
    }
  }

  /** `kruskalMST(edges, V)`. Returns the edges sorted in place, the chosen
      edges and their total weight. The chosen edges form a forest that
      connects the endpoints of every input edge (a spanning forest), were
      taken in non-decreasing weight order from the input, and number at most V-1. */
  method KruskalMST(edges: seq<Edge>, V: nat) returns (sorted: seq<Edge>, mst: seq<Edge>, mstWeight: int)
    requires EdgesIn(edges, V)
    ensures multiset(sorted) == multiset(edges) && NonDecreasing(sorted)
    ensures multiset(mst) <= multiset(edges) && Subsequence(mst, sorted)
    ensures EdgesIn(mst, V) && NonDecreasing(mst)
    ensures mstWeight == TotalWeight(mst)
    ensures IsForest(mst, V)
    ensures Spans(mst, edges, V)
    ensures V >= 1 ==> |mst| <= V - 1
  {
    sorted := SortEdges(edges, V);
    var r := Run(New(V), [], 0, []);
    assert Spans(r.mst, sorted[..0], V);
    var i := 0;
    var full := false;  // the `break` once V-1 edges are kept
    while i < |sorted| && !full
      invariant RunInv(r, sorted, i, V)
      invariant full ==> |r.mst| == V - 1
    {
      r := Step(r, sorted, i, V);
      i := i + 1;
      full := |r.mst| == V - 1;
    }
    mst, mstWeight := r.mst, r.weight;
    Finish(mst, V, edges, sorted, r.picked, i);
  }

  /** The state of the loop: the disjoint-set union, the kept edges, their
      weight, and the positions in the sorted list the kept edges came from. */
  datatype Run = Run(dsu: Dsu, mst: seq<Edge>, weight: int, picked: seq<int>)

  /** What holds after the first i sorted edges were examined. */
  predicate RunInv(r: Run, sorted: seq<Edge>, i: int, V: nat) {
    && 0 <= i <= |sorted| && EdgesIn(sorted, V)
    && Valid(r.dsu) && Size(r.dsu) == V && EdgesIn(r.mst, V)
    && Agrees(r.dsu, Labels(r.mst, V)) && IsForest(r.mst, V)
    && r.weight == TotalWeight(r.mst)
    && Picks(r.mst, sorted, r.picked, i)
    && Spans(r.mst, sorted[..i], V)
  }

  /** One turn of the loop on the i-th sorted edge: it is kept exactly when the
      edges kept so far leave its endpoints apart. */
  method Step(r: Run, sorted: seq<Edge>, i: int, V: nat) returns (r': Run)
    requires RunInv(r, sorted, i, V) && i < |sorted|
    ensures RunInv(r', sorted, i + 1, V)
    ensures var lab := Labels(r.mst, V);
      r'.mst == if lab[sorted[i].src] != lab[sorted[i].dest] then r.mst + [sorted[i]] else r.mst
  {
    var d, m, w, taken := ProcessEdge(r.dsu, r.mst, r.weight, sorted, i, V);
    var p := if taken then r.picked + [i] else r.picked;
    PicksNext(r.mst, sorted, r.picked, i, taken);
    r' := Run(d, m, w, p);
  }

  /** Examining one more edge, and possibly keeping it, keeps the record of
      where the kept edges came from. */
  lemma PicksNext(mst: seq<Edge>, sorted: seq<Edge>, idx: seq<int>, i: int, taken: bool)
    requires 0 <= i < |sorted| && Picks(mst, sorted, idx, i)
    ensures Picks(if taken then mst + [sorted[i]] else mst, sorted, if taken then idx + [i] else idx, i + 1)
  {
  }

  /** One turn of the loop: compare the endpoints' representatives and, when
      they differ, unite them and keep the edge. */
  method ProcessEdge(dsu: Dsu, mst: seq<Edge>, mstWeight: int, sorted: seq<Edge>, i: int, V: nat)
    returns (dsu': Dsu, mst': seq<Edge>, mstWeight': int, taken: bool)
    requires Valid(dsu) && Size(dsu) == V && EdgesIn(mst, V) && EdgesIn(sorted, V)
    requires 0 <= i < |sorted|
    requires Agrees(dsu, Labels(mst, V)) && IsForest(mst, V)
    requires Spans(mst, sorted[..i], V)
    ensures Valid(dsu') && Size(dsu') == V && EdgesIn(mst', V)
    ensures Agrees(dsu', Labels(mst', V)) && IsForest(mst', V)
    ensures mst' == if taken then mst + [sorted[i]] else mst
    ensures taken <==> Labels(mst, V)[sorted[i].src] != Labels(mst, V)[sorted[i].dest]
    ensures mstWeight' - mstWeight == TotalWeight(mst') - TotalWeight(mst)
    ensures Spans(mst', sorted[..i + 1], V)
  {
    var e := sorted[i];
    var (d1, rs) := Find(dsu, e.src);
    var (d2, rd) := Find(d1, e.dest);
    dsu' := d2;
    assert Agrees(dsu', Labels(mst, V));
    if rs != rd {
      AcceptEdge(mst, e, V, sorted[..i]);
      UniteAgrees(dsu', Labels(mst, V), e.src, e.dest);
      dsu' := Unite(dsu', e.src, e.dest);
      mst' := mst + [e];
      assert mst'[..|mst|] == mst;
      mstWeight' := mstWeight + e.weight;
      taken := true;
    } else {
      taken := false;
      mst' := mst;
      mstWeight' := mstWeight;
      assert Root(d2, e.src) == Root(d2, e.dest);
    }
    ExtendSpans(mst', sorted, i, V);
  }

  /** Spanning the examined prefix extends to the next edge once its endpoints
      are connected. */
  lemma ExtendSpans(f: seq<Edge>, sorted: seq<Edge>, i: int, n: nat)
    requires EdgesIn(f, n) && EdgesIn(sorted, n) && 0 <= i < |sorted|
    requires Spans(f, sorted[..i], n)
    requires Labels(f, n)[sorted[i].src] == Labels(f, n)[sorted[i].dest]
    ensures Spans(f, sorted[..i + 1], n)
  {
    var lab := Labels(f, n);
    var pre := sorted[..i + 1];
    forall k | 0 <= k < |pre|
      ensures lab[pre[k].src] == lab[pre[k].dest]
    {
      if k < i {
        assert pre[k] == sorted[..i][k];
      }
    }
  }

  /** What the loop leaves implies the postcondition of `KruskalMST`. */
  lemma Finish(mst: seq<Edge>, V: nat, edges: seq<Edge>, sorted: seq<Edge>, idx: seq<int>, i: int)
    requires EdgesIn(mst, V) && EdgesIn(edges, V) && EdgesIn(sorted, V) && IsForest(mst, V)
    requires multiset(sorted) == multiset(edges) && NonDecreasing(sorted) && 0 <= i <= |sorted|
    requires Picks(mst, sorted, idx, i) && Spans(mst, sorted[..i], V)
    requires i < |sorted| ==> |mst| == V - 1
    ensures multiset(mst) <= multiset(edges) && Subsequence(mst, sorted)
    ensures NonDecreasing(mst) && Spans(mst, edges, V)
    ensures V >= 1 ==> |mst| <= V - 1
  {
    PicksMultiset(mst, sorted, idx, i);
    assert multiset(sorted[..i]) <= multiset(sorted) by {
      assert sorted == sorted[..i] + sorted[i..];
    }
    assert Picks(mst, sorted, idx, |sorted|);
    assert NonDecreasing(mst) by {
      forall a, b | 0 <= a < b < |mst| ensures mst[a].weight <= mst[b].weight {
        assert idx[a] < idx[b];
      }
    }
    if V >= 1 {
      ForestSize(mst, V);
    }
    FinalSpans(mst, V, edges, sorted, i);
  }

  /** Taking an edge whose endpoints lie in different classes keeps a forest,
      and keeps every earlier edge inside one class. */
  lemma AcceptEdge(f: seq<Edge>, e: Edge, n: nat, done: seq<Edge>)
    requires EdgesIn(f, n) && EdgesIn(done, n) && IsForest(f, n)
    requires 0 <= e.src < n && 0 <= e.dest < n
    requires Labels(f, n)[e.src] != Labels(f, n)[e.dest]
    requires Spans(f, done, n)
    ensures EdgesIn(f + [e], n) && IsForest(f + [e], n)
    ensures Labels(f + [e], n)[e.src] == Labels(f + [e], n)[e.dest]
    ensures Spans(f + [e], done, n)
  {
    var g := f + [e];
    assert g[..|g| - 1] == f;
    forall k | 0 <= k < |g|
      ensures JoinsNew(g, k, n)
    {
      if k < |f| {
        assert JoinsNew(f, k, n);
        assert g[..k] == f[..k];
      } else {
        assert g[..k] == f;
      }
    }
    forall k | 0 <= k < |done|
      ensures Labels(g, n)[done[k].src] == Labels(g, n)[done[k].dest]
    {
      MergeKeeps(Labels(f, n), e.src, e.dest, done[k].src, done[k].dest);
    }
  }

  /** After the loop every input edge lies inside one class: either it was
      examined, or the loop stopped with a single class left. */
  lemma FinalSpans(mst: seq<Edge>, V: nat, edges: seq<Edge>, sorted: seq<Edge>, i: int)
    requires EdgesIn(mst, V) && EdgesIn(edges, V) && EdgesIn(sorted, V) && IsForest(mst, V)
    requires multiset(sorted) == multiset(edges) && 0 <= i <= |sorted|
    requires Spans(mst, sorted[..i], V)
    requires i < |sorted| ==> |mst| == V - 1
    ensures Spans(mst, edges, V)
  {
    var lab := Labels(mst, V);
    forall k | 0 <= k < |edges|
      ensures lab[edges[k].src] == lab[edges[k].dest]
    {
      assert edges[k] in multiset(sorted);
      var j :| 0 <= j < |sorted| && sorted[j] == edges[k];
      if j < i {
        assert sorted[..i][j] == edges[k];
      } else {
        ForestClasses(mst, V);
        OneClass(lab, edges[k].src, edges[k].dest);
      }
    }
  }
}
