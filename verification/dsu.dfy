/** The disjoint-set union of graph-04-MST-Kruskal-DSU.cpp: `find` with path
    compression and `unite` by rank, on immutable `parent`/`rank` vectors.

    The abstract meaning of a state is the representative `Root(d, x)` reached by
    following parent pointers without compressing. Every operation is specified
    by what it does to `Root`. */
module Dsu {

  datatype Dsu = Dsu(parent: seq<int>, rank: seq<nat>)

  function Size(d: Dsu): nat {
    |d.parent|
  }

  /** Parent pointers stay inside the structure, and every non-root has a
      strictly smaller rank than its parent; this is what makes `find` terminate. */
  predicate Valid(d: Dsu) {
    && |d.parent| == |d.rank|
    && (forall x :: 0 <= x < |d.parent| ==> 0 <= d.parent[x] < |d.parent|)
    && (forall x :: 0 <= x < |d.parent| && d.parent[x] != x ==> d.rank[x] < d.rank[d.parent[x]])
  }

  predicate IsRoot(d: Dsu, x: int) {
    0 <= x < |d.parent| && d.parent[x] == x
  }

  function MaxRank(rank: seq<nat>): (m: nat)
    ensures forall i :: 0 <= i < |rank| ==> rank[i] <= m
  {
    if |rank| == 0 then 0
    else
      var m := MaxRank(rank[..|rank| - 1]);
      assert forall i :: 0 <= i < |rank| - 1 ==> rank[i] == rank[..|rank| - 1][i];
      if rank[|rank| - 1] > m then rank[|rank| - 1] else m
  }

  /** The representative of x's set: the root reached by following parents. */
  function Root(d: Dsu, x: int): (r: int)
    requires Valid(d) && 0 <= x < Size(d)
    ensures IsRoot(d, r)
    ensures d.rank[x] <= d.rank[r]
    ensures r != x ==> d.rank[x] < d.rank[r]
    decreases MaxRank(d.rank) - d.rank[x]
  {
    if d.parent[x] == x then x else Root(d, d.parent[x])
  }

  /** `DSU(n)`: every element is its own parent, with rank 0. */
  function New(n: nat): (d: Dsu)
    ensures Valid(d) && Size(d) == n
    ensures forall x :: 0 <= x < n ==> IsRoot(d, x) && d.rank[x] == 0
    ensures forall x :: 0 <= x < n ==> Root(d, x) == x
  {
    Dsu(seq(n, i => i), seq(n, _ => 0))
  }

  // ---------------------------------------------------------------------
  // find

  /** `find(x)` with path compression: returns the representative and the
      compressed structure, in which x points directly at it. Compression
      never changes any element's representative, nor any rank. */
  function Find(d: Dsu, x: int): (res: (Dsu, int))
    requires Valid(d) && 0 <= x < Size(d)
    ensures Valid(res.0) && Size(res.0) == Size(d)
    ensures res.1 == Root(d, x) && IsRoot(res.0, res.1)
    ensures res.0.parent[x] == res.1
    ensures res.0.rank == d.rank
    ensures forall y :: 0 <= y < Size(d) ==> Root(res.0, y) == Root(d, y)
    decreases MaxRank(d.rank) - d.rank[x]
  {
    if d.parent[x] == x then
      (d, x)
    else
      var (d1, r) := Find(d, d.parent[x]);
      var d2 := d1.(parent := d1.parent[x := r]);
      assert Root(d1, x) == r by {
        assert Root(d1, x) == Root(d, x) == Root(d, d.parent[x]);
      }
      RedirectPreservesRoots(d1, x);
      (d2, r)
  }

  /** Pointing x straight at its own representative keeps the structure valid
      and every representative unchanged. */
  lemma RedirectPreservesRoots(d: Dsu, x: int)
    requires Valid(d) && 0 <= x < Size(d)
    ensures var d2 := d.(parent := d.parent[x := Root(d, x)]);
      Valid(d2) && forall y :: 0 <= y < Size(d) ==> Root(d2, y) == Root(d, y)
  {
    var d2 := d.(parent := d.parent[x := Root(d, x)]);
    forall y | 0 <= y < Size(d)
      ensures Root(d2, y) == Root(d, y)
    {
      RedirectRoot(d, x, y);
    }
  }

  lemma {:induction false} RedirectRoot(d: Dsu, x: int, y: int)
    requires Valid(d) && 0 <= x < Size(d) && 0 <= y < Size(d)
    ensures Valid(d.(parent := d.parent[x := Root(d, x)]))
    ensures Root(d.(parent := d.parent[x := Root(d, x)]), y) == Root(d, y)
    decreases MaxRank(d.rank) - d.rank[y]
  {
    var r := Root(d, x);
    var d2 := d.(parent := d.parent[x := r]);
    assert Valid(d2);
    if y == x {
      if r != x {
        assert Root(d2, r) == r;
      }
    } else if d.parent[y] != y {
      RedirectRoot(d, x, d.parent[y]);
    }
  }

  // ---------------------------------------------------------------------
  // unite

  /** Hang root c under root p, and give p the rank `newRank`. */
  function Link(d: Dsu, c: int, p: int, newRank: nat): (d2: Dsu)
    requires Valid(d) && IsRoot(d, c) && IsRoot(d, p) && c != p
    requires d.rank[p] <= newRank && d.rank[c] < newRank
    ensures Valid(d2) && Size(d2) == Size(d)
    ensures forall z :: 0 <= z < Size(d) ==>
              Root(d2, z) == if Root(d, z) == c then p else Root(d, z)
  {
    var d2 := Dsu(d.parent[c := p], d.rank[p := newRank]);
    assert Valid(d2);
    forall z | 0 <= z < Size(d)
      ensures Root(d2, z) == if Root(d, z) == c then p else Root(d, z)
    {
      LinkRoot(d, c, p, newRank, z);
    }
    d2
  }

  lemma {:induction false} LinkRoot(d: Dsu, c: int, p: int, newRank: nat, z: int)
    requires Valid(d) && IsRoot(d, c) && IsRoot(d, p) && c != p
    requires d.rank[p] <= newRank && d.rank[c] < newRank
    requires 0 <= z < Size(d)
    ensures Valid(Dsu(d.parent[c := p], d.rank[p := newRank]))
    ensures Root(Dsu(d.parent[c := p], d.rank[p := newRank]), z)
            == if Root(d, z) == c then p else Root(d, z)
    decreases MaxRank(d.rank) - d.rank[z]
  {
    var d2 := Dsu(d.parent[c := p], d.rank[p := newRank]);
    assert Valid(d2);
    if z == c {
      assert Root(d2, p) == p;
    } else if d.parent[z] != z {
      LinkRoot(d, c, p, newRank, d.parent[z]);
    }
  }

  /** `unite(x, y)`: afterwards x and y share a representative, which is one of
      their two old representatives (the one of higher rank; x's on a tie).
      Elements of other sets keep theirs. Only the surviving root's rank may
      change, by one, and only when the two ranks were equal. */
  function Unite(d: Dsu, x: int, y: int): (d2: Dsu)
    requires Valid(d) && 0 <= x < Size(d) && 0 <= y < Size(d)
    ensures Valid(d2) && Size(d2) == Size(d)
    ensures Root(d2, x) == Root(d2, y)
    ensures var rx, ry := Root(d, x), Root(d, y);
      Root(d2, x) == (if rx != ry && d.rank[rx] < d.rank[ry] then ry else rx)
    ensures forall z :: 0 <= z < Size(d) ==>
              Root(d2, z) == if Root(d, z) in {Root(d, x), Root(d, y)} then Root(d2, x) else Root(d, z)
    ensures var rx, ry := Root(d, x), Root(d, y);
      forall z :: 0 <= z < Size(d) ==>
        d2.rank[z] == d.rank[z] + (if z == rx && rx != ry && d.rank[rx] == d.rank[ry] then 1 else 0)
  {
    var (d1, rx) := Find(d, x);
    var (d3, ry) := Find(d1, y);
    LinkRoots(d3, rx, ry)
  }

  /** The union step of `unite` once both representatives are found: the root
      of lower rank goes under the other; on a tie ry goes under rx, whose
      rank grows by one. */
  function LinkRoots(d: Dsu, rx: int, ry: int): (d2: Dsu)
    requires Valid(d) && IsRoot(d, rx) && IsRoot(d, ry)
    ensures Valid(d2) && Size(d2) == Size(d)
    ensures var w := if rx != ry && d.rank[rx] < d.rank[ry] then ry else rx;
      forall z :: 0 <= z < Size(d) ==> Root(d2, z) == if Root(d, z) in {rx, ry} then w else Root(d, z)
    ensures forall z :: 0 <= z < Size(d) ==>
              d2.rank[z] == d.rank[z] + (if z == rx && rx != ry && d.rank[rx] == d.rank[ry] then 1 else 0)
  {
    if rx == ry then
      d
    else if d.rank[rx] > d.rank[ry] then
      Link(d, ry, rx, d.rank[rx])
    else if d.rank[rx] < d.rank[ry] then
      Link(d, rx, ry, d.rank[ry])
    else
      Link(d, ry, rx, d.rank[rx] + 1)
  }
}
