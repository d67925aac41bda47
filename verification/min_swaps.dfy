/** min_swaps_to_sort_custom.cpp: `minSwaps` sorts a copy of the input by
    digit sum (ties broken by value), records for every value its index in
    the input and in the sorted copy, then walks the sorted copy, swapping
    each value into its slot and counting the swaps. The caller's vector is
    rearranged in place; here it is returned. */
module MinSwaps {
  import Sorting
  import opened Seqs

  // ---------------------------------------------------------------------
  // The comparator

  /** The comparator's `while (num > 0)` loop: the decimal digit sum of a
      positive number, and 0 for any other. */
  function DigitSum(n: int): (s: nat)
    ensures n > 0 ==> 1 <= s <= n
  {
    if n <= 0 then 0 else n % 10 + DigitSum(n / 10)
  }

  /** Appending a decimal digit adds it to the digit sum. */
  lemma AppendDigit(n: nat, d: int)
    requires 0 <= d < 10
    ensures DigitSum(10 * n + d) == DigitSum(n) + d
  {
    var m := 10 * n + d;
    if m > 0 {
      assert m % 10 == d && m / 10 == n;
    }
  }

  /** The comparator: smaller digit sum first, then smaller value. */
  predicate Less(a: int, b: int) {
    DigitSum(a) < DigitSum(b) || (DigitSum(a) == DigitSum(b) && a < b)
  }

  /** It is a strict weak order, as `std::sort` requires, and total on
      distinct values, so the sorted order is determined. */
  lemma LessIsStrictOrder()
    ensures Sorting.StrictOrder(Less)
    ensures forall a, b :: a != b ==> Less(a, b) || Less(b, a)
  {
  }

  // ---------------------------------------------------------------------
  // The positions map

  type Positions = map<int, (int, int)>

  /** The last index below n at which s holds v, or -1. */
  function LastIndex(s: seq<int>, v: int, n: nat): (r: int)
    requires n <= |s|
    ensures -1 <= r < n
    ensures r >= 0 ==> s[r] == v
    ensures forall k :: r < k < n ==> s[k] != v
  {
    if n == 0 then -1 else if s[n - 1] == v then n - 1 else LastIndex(s, v, n - 1)
  }

  /** The map after the first loop has looked at the first n indices. */
  ghost predicate Indexed(nums: seq<int>, nums1: seq<int>, positions: Positions, n: nat)
    requires n <= |nums| == |nums1|
  {
    forall v :: (v in positions <==> LastIndex(nums, v, n) >= 0 || LastIndex(nums1, v, n) >= 0)
             && (v in positions ==> positions[v] == (LastIndex(nums, v, n), LastIndex(nums1, v, n)))
  }

  /** The first loop: for each value met in `nums` or `nums1`, the last
      index at which each of them holds it (-1 for none). */
  method Index(nums: seq<int>, nums1: seq<int>) returns (positions: Positions)
    requires |nums| == |nums1|
    ensures forall v :: v in positions <==> v in nums || v in nums1
    ensures forall v :: v in positions ==>
              positions[v] == (LastIndex(nums, v, |nums|), LastIndex(nums1, v, |nums1|))
  {
    positions := map[];
    for i := 0 to |nums|
      invariant Indexed(nums, nums1, positions, i)
    {
      IndexStep(nums, nums1, positions, i);
      positions := Record(positions, nums[i], nums1[i], i);
    }
    IndexDone(nums, nums1, positions);
  }

  /** After the last round the map holds every value of either vector. */
  lemma IndexDone(nums: seq<int>, nums1: seq<int>, positions: Positions)
    requires |nums| == |nums1| && Indexed(nums, nums1, positions, |nums|)
    ensures forall v :: v in positions <==> v in nums || v in nums1
    ensures forall v :: v in positions ==>
              positions[v] == (LastIndex(nums, v, |nums|), LastIndex(nums1, v, |nums1|))
  {
    forall v
      ensures LastIndex(nums, v, |nums|) >= 0 <==> v in nums
      ensures LastIndex(nums1, v, |nums1|) >= 0 <==> v in nums1
    {
      LastIndexFinds(nums, v);
      LastIndexFinds(nums1, v);
    }
  }

  /** The body of the first loop: index i of `nums` holds a and of `nums1`
      holds b; an entry made here for a value not yet seen has -1 on the
      other side. */
  function Record(positions: Positions, a: int, b: int, i: int): (r: Positions)
    ensures r.Keys == positions.Keys + {a, b}
    ensures r[a].0 == i && r[b].1 == i
    ensures a != b ==> r[a].1 == (if a in positions then positions[a].1 else -1)
    ensures a != b ==> r[b].0 == (if b in positions then positions[b].0 else -1)
    ensures forall v :: v in positions && v != a && v != b ==> r[v] == positions[v]
  {
    var p1 := positions[a := (i, if a in positions then positions[a].1 else -1)];
    p1[b := (if b in p1 then p1[b].0 else -1, i)]
  }

  /** One round of the first loop. */
  lemma IndexStep(nums: seq<int>, nums1: seq<int>, positions: Positions, i: nat)
    requires i < |nums| == |nums1| && Indexed(nums, nums1, positions, i)
    ensures Indexed(nums, nums1, Record(positions, nums[i], nums1[i], i), i + 1)
  {
    var positions' := Record(positions, nums[i], nums1[i], i);
    forall v
      ensures (v in positions' <==> LastIndex(nums, v, i + 1) >= 0 || LastIndex(nums1, v, i + 1) >= 0)
      ensures (v in positions' ==> positions'[v] == (LastIndex(nums, v, i + 1), LastIndex(nums1, v, i + 1)))
    {
      assert LastIndex(nums, v, i + 1) == if nums[i] == v then i else LastIndex(nums, v, i);
      assert LastIndex(nums1, v, i + 1) == if nums1[i] == v then i else LastIndex(nums1, v, i);
    }
  }

  /** LastIndex over the whole sequence finds exactly its elements. */
  lemma {:induction false} LastIndexFinds(s: seq<int>, v: int)
    ensures LastIndex(s, v, |s|) >= 0 <==> v in s
  {
    if v in s {
      var k :| 0 <= k < |s| && s[k] == v;
      assert LastIndex(s, v, |s|) >= k;
    }
  }

  // ---------------------------------------------------------------------
  // The swapping loop

  /** `x = nums[i]; nums[i] = nums[j]; nums[j] = x`. */
  function Swap(s: seq<int>, i: int, j: int): (r: seq<int>)
    requires 0 <= i < |s| && 0 <= j < |s|
    ensures |r| == |s| && r[i] == s[j] && r[j] == s[i]
    ensures forall k :: 0 <= k < |s| && k != i && k != j ==> r[k] == s[k]
    ensures multiset(r) == multiset(s)
  {
    s[i := s[j]][j := s[i]]
  }

  /** Every entry of the map holds two indices of a length-n vector. */
  predicate InRange(positions: Positions, n: int) {
    forall v :: v in positions ==> 0 <= positions[v].0 < n && 0 <= positions[v].1 < n
  }

  /** Every element of s has an entry. */
  predicate Keyed(positions: Positions, s: seq<int>) {
    forall k :: 0 <= k < |s| ==> s[k] in positions
  }

  /** Each entry gives the value's index in nums and in nums1. */
  predicate Tracks(positions: Positions, nums: seq<int>, nums1: seq<int>)
    requires InRange(positions, |nums|) && |nums1| == |nums|
  {
    forall v :: v in positions ==> nums[positions[v].0] == v && nums1[positions[v].1] == v
  }

  /** The state of the second loop after i rounds. */
  ghost predicate Placing(nums0: seq<int>, nums1: seq<int>, nums: seq<int>, positions: Positions, i: int, swaps: int) {
    && |nums| == |nums0| == |nums1| && 0 <= i <= |nums| && 0 <= swaps <= i
    && multiset(nums) == multiset(nums0) == multiset(nums1)
    && InRange(positions, |nums|) && Keyed(positions, nums) && Keyed(positions, nums1)
    && (Distinct(nums0) ==>
          && Distinct(nums) && Distinct(nums1) && Tracks(positions, nums, nums1)
          && nums[..i] == nums1[..i])
    && (nums0 == nums1 ==>
          && nums == nums0 && swaps == 0
          && forall v :: v in positions ==> positions[v].0 == positions[v].1)
  }

  /** The second loop: for each slot i of the sorted copy, swap its value
      into slot i of nums when it is elsewhere, and count the swap. */
  method Place(nums0: seq<int>, nums1: seq<int>, positions0: Positions)
    returns (nums: seq<int>, positions: Positions, swaps: int)
    requires Placing(nums0, nums1, nums0, positions0, 0, 0)
    ensures multiset(nums) == multiset(nums0) && 0 <= swaps <= |nums0|
    ensures InRange(positions, |nums|)
    ensures Distinct(nums0) ==> nums == nums1
    ensures Distinct(nums0) ==> forall v :: v in positions ==> nums[positions[v].0] == v
    ensures nums0 == nums1 ==> swaps == 0
  {
    nums, positions, swaps := nums0, positions0, 0;
    var i := 0;
    while i < |nums|
      invariant Placing(nums0, nums1, nums, positions, i, swaps)
    {
      nums, positions, swaps := Settle(nums0, nums1, nums, positions, i, swaps);
      i := i + 1;
    }
    Placed(nums0, nums1, nums, positions, swaps);
  }

  /** After the last round the loop's results are the method's. */
  lemma Placed(nums0: seq<int>, nums1: seq<int>, nums: seq<int>, positions: Positions, swaps: int)
    requires Placing(nums0, nums1, nums, positions, |nums|, swaps)
    ensures multiset(nums) == multiset(nums0) && 0 <= swaps <= |nums0|
    ensures InRange(positions, |nums|)
    ensures Distinct(nums0) ==> nums == nums1
    ensures Distinct(nums0) ==> forall v :: v in positions ==> nums[positions[v].0] == v
    ensures nums0 == nums1 ==> swaps == 0
  {
    assert nums[..|nums|] == nums && nums1[..|nums1|] == nums1;
  }

  /** What the first loop leaves is a valid start for the second. */
  lemma Start(nums0: seq<int>, nums1: seq<int>, positions: Positions)
    requires |nums0| == |nums1| && multiset(nums0) == multiset(nums1)
    requires forall v :: v in positions <==> v in nums0 || v in nums1
    requires forall v :: v in positions ==>
               positions[v] == (LastIndex(nums0, v, |nums0|), LastIndex(nums1, v, |nums1|))
    ensures Placing(nums0, nums1, nums0, positions, 0, 0)
  {
    forall v | v in positions
      ensures 0 <= positions[v].0 < |nums0| && 0 <= positions[v].1 < |nums0|
    {
      assert v in multiset(nums0) && v in multiset(nums1);
    }
    if Distinct(nums0) {
      DistinctMultiset(nums0, nums1);
      forall v | v in positions
        ensures nums0[positions[v].0] == v && nums1[positions[v].1] == v
      {
        assert v in multiset(nums0) && v in multiset(nums1);
      }
    }
  }

  /** One round of the second loop. */
  method Settle(nums0: seq<int>, nums1: seq<int>, nums: seq<int>, positions: Positions, i: int, swaps: int)
    returns (nums': seq<int>, positions': Positions, swaps': int)
    requires Placing(nums0, nums1, nums, positions, i, swaps) && i < |nums|
    ensures Placing(nums0, nums1, nums', positions', i + 1, swaps')
    ensures swaps' == swaps || (swaps' == swaps + 1 && (Distinct(nums0) ==> nums[i] != nums1[i]))
  {
    var v := nums1[i];
    assert v in positions;
    var pos := positions[v].0;
    var pos1 := positions[v].1;
    if pos != pos1 {
      var x := nums[pos1];
      nums' := Swap(nums, pos1, pos);
      positions' := positions[x := (pos, positions[x].1)];
      positions' := positions'[nums'[pos1] := (pos1, positions'[nums'[pos1]].1)];
      swaps' := swaps + 1;
      SwapKeeps(nums0, nums1, nums, positions, i, swaps, pos, pos1, nums', positions');
    } else {
      nums', positions', swaps' := nums, positions, swaps;
      InPlace(nums0, nums1, nums, positions, i, swaps);
    }
  }

  /** The value for slot i is already there. */
  lemma InPlace(nums0: seq<int>, nums1: seq<int>, nums: seq<int>, positions: Positions, i: int, swaps: int)
    requires Placing(nums0, nums1, nums, positions, i, swaps) && i < |nums|
    requires positions[nums1[i]].0 == positions[nums1[i]].1
    ensures Placing(nums0, nums1, nums, positions, i + 1, swaps)
  {
    if Distinct(nums0) {
      var v := nums1[i];
      assert nums1[positions[v].1] == v;
      assert nums[i] == v;
      assert nums[..i + 1] == nums[..i] + [nums[i]];
      assert nums1[..i + 1] == nums1[..i] + [nums1[i]];
    }
  }

  lemma SwapKeeps(nums0: seq<int>, nums1: seq<int>, nums: seq<int>, positions: Positions, i: int, swaps: int,
                  pos: int, pos1: int, nums': seq<int>, positions': Positions)
    requires Placing(nums0, nums1, nums, positions, i, swaps) && i < |nums|
    requires pos == positions[nums1[i]].0 && pos1 == positions[nums1[i]].1 && pos != pos1
    requires 0 <= pos < |nums| && 0 <= pos1 < |nums|
    requires nums' == Swap(nums, pos1, pos)
    requires
      var x := nums[pos1];
      var p1 := positions[x := (pos, positions[x].1)];
      positions' == p1[nums'[pos1] := (pos1, p1[nums'[pos1]].1)]
    ensures Placing(nums0, nums1, nums', positions', i + 1, swaps + 1)
    ensures Distinct(nums0) ==> nums[i] != nums1[i]
  {
    var v := nums1[i];
    var x := nums[pos1];
    assert nums'[pos1] == nums[pos];
    assert Keyed(positions', nums') by {
      forall k | 0 <= k < |nums'|
        ensures nums'[k] in positions'
      {
        assert nums'[k] in multiset(nums);
      }
    }
    assert v in positions && positions[v].0 != positions[v].1;
    assert nums0 != nums1;
    if Distinct(nums0) {
      SwapDistinct(nums0, nums1, nums, positions, i, swaps, pos, pos1, nums', positions');
    } else {
      SwapOther(nums0, nums1, nums, positions, i, swaps, pos, pos1, nums', positions');
    }
  }

  lemma SwapDistinct(nums0: seq<int>, nums1: seq<int>, nums: seq<int>, positions: Positions, i: int, swaps: int,
                     pos: int, pos1: int, nums': seq<int>, positions': Positions)
    requires Placing(nums0, nums1, nums, positions, i, swaps) && i < |nums| && Distinct(nums0) && nums0 != nums1
    requires pos == positions[nums1[i]].0 && pos1 == positions[nums1[i]].1 && pos != pos1
    requires 0 <= pos < |nums| && 0 <= pos1 < |nums|
    requires nums' == Swap(nums, pos1, pos)
    requires
      var x := nums[pos1];
      var p1 := positions[x := (pos, positions[x].1)];
      positions' == p1[nums'[pos1] := (pos1, p1[nums'[pos1]].1)]
    ensures Placing(nums0, nums1, nums', positions', i + 1, swaps + 1)
    ensures nums[i] != nums1[i]
  {
    var v := nums1[i];
    assert pos1 == i by {
      assert nums1[pos1] == v;
    }
    assert nums[pos] == v;
    var x := nums[i];
    forall k | 0 <= k < i
      ensures nums[k] != v
    {
      assert nums[..i][k] == nums1[..i][k];
    }
    assert pos > i;
    SwapDistinctKeep(nums, i, pos);
    forall w | w in positions'
      ensures nums'[positions'[w].0] == w && nums1[positions'[w].1] == w
    {
      if w != x && w != v {
        assert nums[positions[w].0] == w;
      }
    }
    assert nums'[..i + 1] == nums1[..i + 1] by {
      assert nums'[..i] == nums[..i];
    }
  }

  lemma SwapDistinctKeep(s: seq<int>, i: int, j: int)
    requires Distinct(s) && 0 <= i < |s| && 0 <= j < |s|
    ensures Distinct(Swap(s, i, j))
  {
    var r := Swap(s, i, j);
    forall a, b | 0 <= a < b < |r|
      ensures r[a] != r[b]
    {
      var a' := if a == i then j else if a == j then i else a;
      var b' := if b == i then j else if b == j then i else b;
      assert r[a] == s[a'] && r[b] == s[b'] && a' != b';
    }
  }

  lemma SwapOther(nums0: seq<int>, nums1: seq<int>, nums: seq<int>, positions: Positions, i: int, swaps: int,
                  pos: int, pos1: int, nums': seq<int>, positions': Positions)
    requires Placing(nums0, nums1, nums, positions, i, swaps) && i < |nums| && !Distinct(nums0) && nums0 != nums1
    requires pos == positions[nums1[i]].0 && pos1 == positions[nums1[i]].1 && pos != pos1
    requires 0 <= pos < |nums| && 0 <= pos1 < |nums|
    requires nums' == Swap(nums, pos1, pos)
    requires
      var x := nums[pos1];
      var p1 := positions[x := (pos, positions[x].1)];
      positions' == p1[nums'[pos1] := (pos1, p1[nums'[pos1]].1)]
    requires Keyed(positions', nums')
    ensures Placing(nums0, nums1, nums', positions', i + 1, swaps + 1)
  {
  }

  /** The same values, one copy each, in another order. */
  lemma DistinctMultiset(a: seq<int>, b: seq<int>)
    requires Distinct(a) && multiset(a) == multiset(b)
    ensures Distinct(b)
  {
    forall i, j | 0 <= i < j < |b|
      ensures b[i] != b[j]
    {
      CountAtMostOne(a, b[i]);
      assert b == b[..j] + [b[j]] + b[j + 1..];
      assert b[i] in b[..j];
      assert multiset(b)[b[j]] >= multiset(b[..j])[b[j]] + 1;
    }
  }

  lemma {:induction false} CountAtMostOne(a: seq<int>, v: int)
    requires Distinct(a)
    ensures multiset(a)[v] <= 1
  {
    if |a| > 0 {
      var init := a[..|a| - 1];
      assert a == init + [a[|a| - 1]];
      assert Distinct(init);
      CountAtMostOne(init, v);
      if a[|a| - 1] == v {
        assert v !in init;
      }
    }
  }

  // ---------------------------------------------------------------------
  // minSwaps

  /** `minSwaps(nums)`: the number of swaps, and the vector as the call
      leaves it. */
  method MinSwaps(nums: seq<int>) returns (swaps: int, sorted: seq<int>)
    ensures multiset(sorted) == multiset(nums) && 0 <= swaps <= |nums|
    ensures Distinct(nums) ==> Sorting.SortedBy(sorted, Less)
    ensures Distinct(nums) && Sorting.SortedBy(nums, Less) ==> swaps == 0
  {
    LessIsStrictOrder();
    var nums1 := Sorting.Sort(nums, Less);
    var positions := Index(nums, nums1);
    Start(nums, nums1, positions);
    sorted, positions, swaps := Place(nums, nums1, positions);
    if Distinct(nums) && Sorting.SortedBy(nums, Less) {
      SortedUnique(nums, nums1);
    }
  }

  /** Two orderings of the same distinct values that are both sorted under
      the comparator are the same sequence. */
  lemma {:induction false} SortedUnique(a: seq<int>, b: seq<int>)
    requires Distinct(a) && multiset(a) == multiset(b)
    requires Sorting.SortedBy(a, Less) && Sorting.SortedBy(b, Less)
    ensures a == b
    decreases |a|
  {
    LessIsStrictOrder();
    assert |a| == |multiset(a)| == |b|;
    if |a| > 0 {
      SameHead(a, b);
      Tails(a, b);
      SortedUnique(a[1..], b[1..]);
    }
  }

  /** Sorted orderings of the same distinct values start alike. */
  lemma SameHead(a: seq<int>, b: seq<int>)
    requires Distinct(a) && multiset(a) == multiset(b) && |a| == |b| > 0
    requires Sorting.SortedBy(a, Less) && Sorting.SortedBy(b, Less)
    ensures a[0] == b[0]
  {
    LessIsStrictOrder();
    DistinctMultiset(a, b);
    assert a[0] in multiset(b) && b[0] in multiset(a);
    var k :| 0 <= k < |b| && b[k] == a[0];
    var m :| 0 <= m < |a| && a[m] == b[0];
    assert !Less(b[k], b[0]) && !Less(a[m], a[0]);
  }

  /** Dropping the common head keeps the hypotheses of SortedUnique. */
  lemma Tails(a: seq<int>, b: seq<int>)
    requires Distinct(a) && multiset(a) == multiset(b) && |a| == |b| > 0 && a[0] == b[0]
    requires Sorting.SortedBy(a, Less) && Sorting.SortedBy(b, Less)
    ensures Distinct(a[1..]) && multiset(a[1..]) == multiset(b[1..])
    ensures Sorting.SortedBy(a[1..], Less) && Sorting.SortedBy(b[1..], Less)
  {
    DropHead(a);
    DropHead(b);
    forall i, j | 0 <= i < j < |a| - 1
      ensures a[1..][i] != a[1..][j]
    {
      assert a[1..][i] == a[i + 1] && a[1..][j] == a[j + 1];
    }
  }

  lemma DropHead(a: seq<int>)
    requires |a| > 0
    ensures multiset(a[1..]) == multiset(a) - multiset{a[0]}
  {
    assert a == [a[0]] + a[1..];
  }
}
