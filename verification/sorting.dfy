/** `std::sort` with a user comparator, modelled as an insertion sort.
    Callers rely only on its contract: the result is a permutation of the
    input that is ordered under the comparator. */
module Sorting {

  /** What `std::sort` demands of a comparator, a strict weak order:
      irreflexive, transitive, and with incomparability (neither is less
      than the other) transitive as well. */
  ghost predicate StrictOrder<T(!new)>(lt: (T, T) -> bool) {
    && (forall a :: !lt(a, a))
    && (forall a, b, c :: lt(a, b) && lt(b, c) ==> lt(a, c))
    && (forall a, b, c :: !lt(a, b) && !lt(b, a) && !lt(b, c) && !lt(c, b) ==> !lt(a, c) && !lt(c, a))
  }

  /** No later element is strictly less than an earlier one. */
  ghost predicate SortedBy<T>(s: seq<T>, lt: (T, T) -> bool) {
    forall i, j :: 0 <= i < j < |s| ==> !lt(s[j], s[i])
  }

  /** Insert x into a sorted sequence, after every element not greater than it. */
  function Insert<T(!new)>(x: T, s: seq<T>, lt: (T, T) -> bool): (r: seq<T>)
    requires StrictOrder(lt) && SortedBy(s, lt)
    ensures multiset(r) == multiset(s) + multiset{x}
    ensures SortedBy(r, lt)
  {
    if |s| == 0 then
      [x]
    else if lt(x, s[0]) then
      PrependSmaller(x, s, lt);
      [x] + s
    else
      var tail := Insert(x, s[1..], lt);
      assert s == [s[0]] + s[1..];
      PrependNotGreater(s[0], tail, x, s[1..], lt);
      [s[0]] + tail
  }

  lemma PrependSmaller<T(!new)>(x: T, s: seq<T>, lt: (T, T) -> bool)
    requires StrictOrder(lt) && SortedBy(s, lt)
    requires |s| > 0 && lt(x, s[0])
    ensures SortedBy([x] + s, lt)
  {
    var r := [x] + s;
    forall i, j | 0 <= i < j < |r|
      ensures !lt(r[j], r[i])
    {
      if i == 0 {
        assert r[j] == s[j - 1];
        if j - 1 > 0 {
          assert !lt(s[j - 1], s[0]);
        }
      } else {
        assert r[i] == s[i - 1] && r[j] == s[j - 1];
      }
    }
  }

  lemma PrependNotGreater<T(!new)>(y: T, tail: seq<T>, x: T, rest: seq<T>, lt: (T, T) -> bool)
    requires StrictOrder(lt) && SortedBy(tail, lt)
    requires multiset(tail) == multiset(rest) + multiset{x}
    requires !lt(x, y)
    requires forall k :: 0 <= k < |rest| ==> !lt(rest[k], y)
    ensures SortedBy([y] + tail, lt)
  {
    var r := [y] + tail;
    forall i, j | 0 <= i < j < |r|
      ensures !lt(r[j], r[i])
    {
      if i == 0 {
        var e := tail[j - 1];
        assert e in multiset(tail);
        if e != x {
          assert e in multiset(rest);
          assert e in rest;
          var k :| 0 <= k < |rest| && rest[k] == e;
        }
      } else {
        assert r[i] == tail[i - 1] && r[j] == tail[j - 1];
      }
    }
  }

  /** The sorted permutation of s. */
  function Sort<T(!new)>(s: seq<T>, lt: (T, T) -> bool): (r: seq<T>)
    requires StrictOrder(lt)
    ensures multiset(r) == multiset(s)
    ensures SortedBy(r, lt)
  {
    if |s| == 0 then
      []
    else
      assert s == [s[0]] + s[1..];
      Insert(s[0], Sort(s[1..], lt), lt)
  }
}
