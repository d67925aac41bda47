/** The `priority_queue<pair<int, int>, vector<pair<int, int>>,
    greater<pair<int, int>>>` of Dijkstra's and Prim's algorithms, as an
    unordered sequence of `(priority, vertex)` entries: `top` is the least
    entry in the lexicographic pair order, and `pop` removes one copy of it.
    Neither program depends on the heap's layout. */
module MinQueue {

  type Entry = (int, int)

  /** `a < b` in the order of `std::pair`: first components, then second. */
  predicate Before(a: Entry, b: Entry) {
    a.0 < b.0 || (a.0 == b.0 && a.1 < b.1)
  }

  /** The position of a least entry. */
  function MinIndex(pq: seq<Entry>): (i: nat)
    requires |pq| > 0
    ensures i < |pq|
    ensures forall k :: 0 <= k < |pq| ==> !Before(pq[k], pq[i])
  {
    if |pq| == 1 then 0
    else
      var init := pq[..|pq| - 1];
      var i := MinIndex(init);
      assert forall k :: 0 <= k < |init| ==> init[k] == pq[k];
      if Before(pq[|pq| - 1], pq[i]) then |pq| - 1 else i
  }

  /** `top()` followed by `pop()`: the least entry, and the queue without
      that one copy of it. */
  function Pop(pq: seq<Entry>): (res: (Entry, seq<Entry>))
    requires |pq| > 0
    ensures res.0 in pq
    ensures forall k :: 0 <= k < |pq| ==> !Before(pq[k], res.0)
    ensures multiset(res.1) + multiset{res.0} == multiset(pq)
    ensures |res.1| == |pq| - 1
    ensures forall e :: e in pq && e != res.0 ==> e in res.1
    ensures forall e :: e in res.1 ==> e in pq
  {
    var i := MinIndex(pq);
    var rest := pq[..i] + pq[i + 1..];
    assert pq == pq[..i] + [pq[i]] + pq[i + 1..];
    (pq[i], rest)
  }
}
