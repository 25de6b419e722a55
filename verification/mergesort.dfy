/** The merge sort `sort` runs over the chain: split the run in two, the
    left half taking the middle element when the length is odd, sort both
    halves, and merge them preferring the left run on ties. Elements are
    compared through a key, so the same definition sorts node identifiers
    by the values they hold. */
module MergeSort {

  /** `a` may precede `b`: `a <= b`, or `a >= b` when sorting descending. */
  predicate Ordered(descending: bool, a: int, b: int) {
    if descending then a >= b else a <= b
  }

  /** Every element's key may precede the key of every later element. */
  predicate SortedBy<X>(s: seq<X>, key: X -> int, descending: bool) {
    forall i, j :: 0 <= i < j < |s| ==> Ordered(descending, key(s[i]), key(s[j]))
  }

  /** Every key in `s` may follow `b`. */
  predicate AllAfter<X>(b: int, s: seq<X>, key: X -> int, descending: bool) {
    forall i :: 0 <= i < |s| ==> Ordered(descending, b, key(s[i]))
  }

  /** How often `x` occurs in `s`; two runs are permutations of each other
      when every element occurs equally often in both. */
  function Count<X(==)>(s: seq<X>, x: X): (c: nat)
    ensures c <= |s|
  {
    if s == [] then 0 else (if s[0] == x then 1 else 0) + Count(s[1..], x)
  }

  /** The elements of `s` whose key is `k`, in their order in `s`. */
  function WithKey<X>(s: seq<X>, key: X -> int, k: int): (r: seq<X>)
    ensures |r| <= |s|
  {
    if s == [] then []
    else (if key(s[0]) == k then [s[0]] else []) + WithKey(s[1..], key, k)
  }

  /** `_merge`: repeatedly take the head of `left` when it may precede the
      head of `right`, else the head of `right`. */
  function Merge<X>(left: seq<X>, right: seq<X>, key: X -> int, descending: bool): (r: seq<X>)
    ensures |r| == |left| + |right|
    decreases |left| + |right|
  {
    if left == [] then right
    else if right == [] then left
    else if Ordered(descending, key(left[0]), key(right[0])) then
      [left[0]] + Merge(left[1..], right, key, descending)
    else
      [right[0]] + Merge(left, right[1..], key, descending)
  }

  /** The number of nodes `_split` leaves in the left run of `n` nodes:
      the fast cursor starts one node ahead and moves two nodes for each
      node the slow cursor moves, so the slow cursor stops on the last of
      the first `(n + 1) / 2` nodes. */
  function SplitPoint(n: nat): (h: nat)
    ensures h + h == n || h + h == n + 1
  {
    if n <= 1 then n else 1 + SplitPoint(n - 2)
  }

  /** `_merge_sort`: runs of length 0 or 1 are sorted; longer runs are
      split in two by `_split`, sorted, and merged. */
  function Sort<X>(s: seq<X>, key: X -> int, descending: bool): (r: seq<X>)
    ensures |r| == |s|
    decreases |s|
  {
    if |s| <= 1 then s
    else
      var mid := SplitPoint(|s|);
      Merge(Sort(s[..mid], key, descending), Sort(s[mid..], key, descending), key, descending)
  }

  /** Counting in a run with one more element in front. */
  lemma CountCons<X>(h: X, s: seq<X>, x: X)
    ensures Count([h] + s, x) == (if h == x then 1 else 0) + Count(s, x)
  {
    assert ([h] + s)[1..] == s;
  }

  /** Counting distributes over concatenation. */
  lemma {:induction false} CountAppend<X>(a: seq<X>, b: seq<X>, x: X)
    ensures Count(a + b, x) == Count(a, x) + Count(b, x)
    decreases |a|
  {
    if a == [] {
      assert a + b == b;
    } else {
      assert a + b == [a[0]] + (a[1..] + b);
      assert a == [a[0]] + a[1..];
      CountCons(a[0], a[1..] + b, x);
      CountCons(a[0], a[1..], x);
      CountAppend(a[1..], b, x);
    }
  }

  /** An element occurs in a run exactly when it is counted there. */
  lemma {:induction false} CountMember<X>(s: seq<X>, x: X)
    ensures Count(s, x) > 0 <==> x in s
    decreases |s|
  {
    if s != [] {
      CountMember(s[1..], x);
      assert s == [s[0]] + s[1..];
    }
  }

  /** The merge counts every element as often as both runs together. */
  lemma {:induction false} MergeCount<X>(left: seq<X>, right: seq<X>, key: X -> int, descending: bool, x: X)
    ensures Count(Merge(left, right, key, descending), x) == Count(left, x) + Count(right, x)
    decreases |left| + |right|
  {
    if left == [] {
    } else if right == [] {
    } else if Ordered(descending, key(left[0]), key(right[0])) {
      MergeCount(left[1..], right, key, descending, x);
      CountCons(left[0], Merge(left[1..], right, key, descending), x);
      CountCons(left[0], left[1..], x);
      assert left == [left[0]] + left[1..];
    } else {
      MergeCount(left, right[1..], key, descending, x);
      CountCons(right[0], Merge(left, right[1..], key, descending), x);
      CountCons(right[0], right[1..], x);
      assert right == [right[0]] + right[1..];
    }
  }

  /** Merge sort permutes its input: every element occurs as often after
      sorting as before. */
  lemma {:induction false} SortCount<X>(s: seq<X>, key: X -> int, descending: bool, x: X)
    ensures Count(Sort(s, key, descending), x) == Count(s, x)
    decreases |s|
  {
    if |s| > 1 {
      var mid := SortStep(s, key, descending);
      SortCount(s[..mid], key, descending, x);
      SortCount(s[mid..], key, descending, x);
      MergeCount(Sort(s[..mid], key, descending), Sort(s[mid..], key, descending), key, descending, x);
      CountAppend(s[..mid], s[mid..], x);
    }
  }

  /** If every key of both runs may follow `b`, so does every key of
      their merge. */
  lemma {:induction false} MergeAllAfter<X>(b: int, left: seq<X>, right: seq<X>, key: X -> int, descending: bool)
    requires AllAfter(b, left, key, descending) && AllAfter(b, right, key, descending)
    ensures AllAfter(b, Merge(left, right, key, descending), key, descending)
    decreases |left| + |right|
  {
    if left != [] && right != [] {
      if Ordered(descending, key(left[0]), key(right[0])) {
        TailAllAfter(b, left, key, descending);
        MergeAllAfter(b, left[1..], right, key, descending);
        ConsAllAfter(b, left[0], Merge(left[1..], right, key, descending), key, descending);
      } else {
        TailAllAfter(b, right, key, descending);
        MergeAllAfter(b, left, right[1..], key, descending);
        ConsAllAfter(b, right[0], Merge(left, right[1..], key, descending), key, descending);
      }
    }
  }

  /** `AllAfter` for a run with one more element in front. */
  lemma ConsAllAfter<X>(b: int, x: X, s: seq<X>, key: X -> int, descending: bool)
    requires Ordered(descending, b, key(x)) && AllAfter(b, s, key, descending)
    ensures AllAfter(b, [x] + s, key, descending)
  {
    forall i | 0 <= i < |s| + 1
      ensures Ordered(descending, b, key(([x] + s)[i]))
    {
      if i > 0 {
        assert ([x] + s)[i] == s[i - 1];
      }
    }
  }

  /** `AllAfter` survives dropping the first element. */
  lemma TailAllAfter<X>(b: int, s: seq<X>, key: X -> int, descending: bool)
    requires AllAfter(b, s, key, descending) && s != []
    ensures AllAfter(b, s[1..], key, descending)
  {
    forall i | 0 <= i < |s| - 1
      ensures Ordered(descending, b, key(s[1..][i]))
    {
      assert s[1..][i] == s[i + 1];
    }
  }

  /** A sorted run is bounded by its first key. */
  lemma SortedAllAfter<X>(s: seq<X>, key: X -> int, descending: bool)
    requires SortedBy(s, key, descending) && s != []
    ensures AllAfter(key(s[0]), s, key, descending)
  {
    forall i | 0 < i < |s|
      ensures Ordered(descending, key(s[0]), key(s[i]))
    {
    }
  }

  /** Merging two sorted runs gives a sorted run. */
  lemma {:induction false} MergeSorted<X>(left: seq<X>, right: seq<X>, key: X -> int, descending: bool)
    requires SortedBy(left, key, descending) && SortedBy(right, key, descending)
    ensures SortedBy(Merge(left, right, key, descending), key, descending)
    decreases |left| + |right|
  {
    if left != [] && right != [] {
      SortedTail(left, key, descending);
      SortedTail(right, key, descending);
      SortedAllAfter(left, key, descending);
      SortedAllAfter(right, key, descending);
      if Ordered(descending, key(left[0]), key(right[0])) {
        MergeSorted(left[1..], right, key, descending);
        assert AllAfter(key(left[0]), right, key, descending);
        TailAllAfter(key(left[0]), left, key, descending);
        MergeAllAfter(key(left[0]), left[1..], right, key, descending);
        SortedCons(left[0], Merge(left[1..], right, key, descending), key, descending);
      } else {
        MergeSorted(left, right[1..], key, descending);
        assert AllAfter(key(right[0]), left, key, descending);
        TailAllAfter(key(right[0]), right, key, descending);
        MergeAllAfter(key(right[0]), left, right[1..], key, descending);
        SortedCons(right[0], Merge(left, right[1..], key, descending), key, descending);
      }
    }
  }

  /** Putting in front of a sorted run an element that may precede all of
      it gives a sorted run. */
  lemma SortedCons<X>(x: X, rest: seq<X>, key: X -> int, descending: bool)
    requires SortedBy(rest, key, descending) && AllAfter(key(x), rest, key, descending)
    ensures SortedBy([x] + rest, key, descending)
  {
    var s := [x] + rest;
    forall i, j | 0 <= i < j < |s|
      ensures Ordered(descending, key(s[i]), key(s[j]))
    {
      if i == 0 {
        assert s[j] == rest[j - 1];
      } else {
        assert s[i] == rest[i - 1] && s[j] == rest[j - 1];
      }
    }
  }

  /** Dropping the first element of a sorted run leaves it sorted. */
  lemma SortedTail<X>(s: seq<X>, key: X -> int, descending: bool)
    requires SortedBy(s, key, descending) && s != []
    ensures SortedBy(s[1..], key, descending)
  {
    forall i, j | 0 <= i < j < |s| - 1
      ensures Ordered(descending, key(s[1..][i]), key(s[1..][j]))
    {
      assert s[1..][i] == s[i + 1] && s[1..][j] == s[j + 1];
    }
  }

  /** Every slice of a sorted run is sorted. */
  lemma SortedSlice<X>(s: seq<X>, lo: nat, hi: nat, key: X -> int, descending: bool)
    requires SortedBy(s, key, descending) && lo <= hi <= |s|
    ensures SortedBy(s[lo..hi], key, descending)
  {
    forall i, j | 0 <= i < j < hi - lo
      ensures Ordered(descending, key(s[lo..hi][i]), key(s[lo..hi][j]))
    {
      assert s[lo..hi][i] == s[lo + i] && s[lo..hi][j] == s[lo + j];
    }
  }

  /** Merge sort sorts. */
  lemma {:induction false} SortSorted<X>(s: seq<X>, key: X -> int, descending: bool)
    ensures SortedBy(Sort(s, key, descending), key, descending)
    decreases |s|
  {
    if |s| > 1 {
      var mid := SplitPoint(|s|);
      var left, right := s[..mid], s[mid..];
      assert Sort(s, key, descending) == Merge(Sort(left, key, descending), Sort(right, key, descending), key, descending);
      SortSorted(left, key, descending);
      SortSorted(right, key, descending);
      MergeSorted(Sort(left, key, descending), Sort(right, key, descending), key, descending);
    }
  }

  /** Filtering a run with one more element in front. */
  lemma WithKeyCons<X>(x: X, s: seq<X>, key: X -> int, k: int)
    ensures WithKey([x] + s, key, k) == (if key(x) == k then [x] else []) + WithKey(s, key, k)
  {
    assert ([x] + s)[1..] == s;
  }

  /** Filtering by key distributes over concatenation. */
  lemma {:induction false} WithKeyAppend<X>(a: seq<X>, b: seq<X>, key: X -> int, k: int)
    ensures WithKey(a + b, key, k) == WithKey(a, key, k) + WithKey(b, key, k)
    decreases |a|
  {
    if a == [] {
      assert a + b == b;
    } else {
      assert a + b == [a[0]] + (a[1..] + b);
      assert a == [a[0]] + a[1..];
      WithKeyCons(a[0], a[1..] + b, key, k);
      WithKeyCons(a[0], a[1..], key, k);
      WithKeyAppend(a[1..], b, key, k);
    }
  }

  /** A run whose keys all come strictly after `k` holds no element with
      key `k`. */
  lemma {:induction false} WithKeyNone<X>(s: seq<X>, key: X -> int, descending: bool, b: int, k: int)
    requires AllAfter(b, s, key, descending) && !Ordered(descending, b, k)
    ensures WithKey(s, key, k) == []
    decreases |s|
  {
    if s != [] {
      assert Ordered(descending, b, key(s[0]));
      TailAllAfter(b, s, key, descending);
      WithKeyNone(s[1..], key, descending, b, k);
    }
  }

  /** The merge keeps, for every key, the left run's elements with that key
      ahead of the right run's: ties go to the left run. */
  lemma {:induction false} MergeStable<X>(left: seq<X>, right: seq<X>, key: X -> int, descending: bool, k: int)
    requires SortedBy(left, key, descending) && SortedBy(right, key, descending)
    ensures WithKey(Merge(left, right, key, descending), key, k)
            == WithKey(left, key, k) + WithKey(right, key, k)
    decreases |left| + |right|
  {
    if left == [] {
      assert WithKey(left, key, k) == [];
    } else if right == [] {
      assert WithKey(right, key, k) == [];
    } else if Ordered(descending, key(left[0]), key(right[0])) {
      SortedTail(left, key, descending);
      MergeStable(left[1..], right, key, descending, k);
      StableTakeLeft(left, right, key, descending, k);
    } else {
      SortedTail(right, key, descending);
      MergeStable(left, right[1..], key, descending, k);
      SortedAllAfter(left, key, descending);
      StableTakeRight(left, right, key, descending, k);
    }
  }

  /** One step of `MergeStable` when the left head is taken. */
  lemma StableTakeLeft<X>(left: seq<X>, right: seq<X>, key: X -> int, descending: bool, k: int)
    requires left != [] && right != [] && Ordered(descending, key(left[0]), key(right[0]))
    requires WithKey(Merge(left[1..], right, key, descending), key, k)
             == WithKey(left[1..], key, k) + WithKey(right, key, k)
    ensures WithKey(Merge(left, right, key, descending), key, k)
            == WithKey(left, key, k) + WithKey(right, key, k)
  {
    assert left == [left[0]] + left[1..];
    FilterStep(left[0], Merge(left[1..], right, key, descending), left[1..], right, key, k);
  }

  /** One step of `MergeStable` when the right head is taken: the left
      run, bounded by a key strictly after the right head's, holds nothing
      with the right head's key. */
  lemma StableTakeRight<X>(left: seq<X>, right: seq<X>, key: X -> int, descending: bool, k: int)
    requires left != [] && right != [] && !Ordered(descending, key(left[0]), key(right[0]))
    requires AllAfter(key(left[0]), left, key, descending)
    requires WithKey(Merge(left, right[1..], key, descending), key, k)
             == WithKey(left, key, k) + WithKey(right[1..], key, k)
    ensures WithKey(Merge(left, right, key, descending), key, k)
            == WithKey(left, key, k) + WithKey(right, key, k)
  {
    assert right == [right[0]] + right[1..];
    if key(right[0]) == k {
      WithKeyNone(left, key, descending, key(left[0]), k);
    }
    FilterStepRight(right[0], Merge(left, right[1..], key, descending), left, right[1..], key, k);
  }

  /** Filtering after putting `x` in front, when the filter of `rest` is
      that of `a` followed by that of `b`, and `a` holds nothing with
      `x`'s key if `x` is kept. */
  lemma FilterStepRight<X>(x: X, rest: seq<X>, a: seq<X>, b: seq<X>, key: X -> int, k: int)
    requires WithKey(rest, key, k) == WithKey(a, key, k) + WithKey(b, key, k)
    requires key(x) == k ==> WithKey(a, key, k) == []
    ensures WithKey([x] + rest, key, k) == WithKey(a, key, k) + WithKey([x] + b, key, k)
  {
    WithKeyCons(x, rest, key, k);
    WithKeyCons(x, b, key, k);
    if key(x) == k {
      assert [x] + ([] + WithKey(b, key, k)) == [] + ([x] + WithKey(b, key, k));
    } else {
      assert [] + (WithKey(a, key, k) + WithKey(b, key, k)) == WithKey(a, key, k) + ([] + WithKey(b, key, k));
    }
  }

  /** Filtering after putting `x` in front, when the filter of `rest` is
      that of `a` followed by that of `b`. */
  lemma FilterStep<X>(x: X, rest: seq<X>, a: seq<X>, b: seq<X>, key: X -> int, k: int)
    requires WithKey(rest, key, k) == WithKey(a, key, k) + WithKey(b, key, k)
    ensures WithKey([x] + rest, key, k) == WithKey([x] + a, key, k) + WithKey(b, key, k)
  {
    WithKeyCons(x, rest, key, k);
    WithKeyCons(x, a, key, k);
    var h := if key(x) == k then [x] else [];
    assert h + (WithKey(a, key, k) + WithKey(b, key, k)) == (h + WithKey(a, key, k)) + WithKey(b, key, k);
  }

  /** Sortedness depends only on the keys, not on how they are computed. */
  lemma SortedByAgree<X>(s: seq<X>, k1: X -> int, k2: X -> int, descending: bool)
    requires SortedBy(s, k1, descending)
    requires forall i :: 0 <= i < |s| ==> k1(s[i]) == k2(s[i])
    ensures SortedBy(s, k2, descending)
  {
    forall i, j | 0 <= i < j < |s|
      ensures Ordered(descending, k2(s[i]), k2(s[j]))
    {
      assert Ordered(descending, k1(s[i]), k1(s[j]));
    }
  }

  /** Merge sort is stable: for every key, the elements with that key keep
      their relative order. */
  lemma {:induction false} SortStable<X>(s: seq<X>, key: X -> int, descending: bool, k: int)
    ensures WithKey(Sort(s, key, descending), key, k) == WithKey(s, key, k)
    decreases |s|
  {
    if |s| > 1 {
      var mid := SortStep(s, key, descending);
      SortStable(s[..mid], key, descending, k);
      SortStable(s[mid..], key, descending, k);
      StableMergeStep(s[..mid], s[mid..], key, descending, k);
    }
  }

  /** One step of merge sort: the sequence is its two halves, and its sort
      is the merge of their sorts. */
  lemma SortStep<X>(s: seq<X>, key: X -> int, descending: bool) returns (mid: nat)
    requires |s| > 1
    ensures mid == SplitPoint(|s|) && 0 < mid < |s| && s == s[..mid] + s[mid..]
    ensures Sort(s, key, descending)
            == Merge(Sort(s[..mid], key, descending), Sort(s[mid..], key, descending), key, descending)
  {
    mid := SplitPoint(|s|);
  }

  /** When sorting each half keeps every key's elements in order, merging
      the sorted halves keeps them in the order of the whole. */
  lemma StableMergeStep<X>(left: seq<X>, right: seq<X>, key: X -> int, descending: bool, k: int)
    requires WithKey(Sort(left, key, descending), key, k) == WithKey(left, key, k)
    requires WithKey(Sort(right, key, descending), key, k) == WithKey(right, key, k)
    ensures WithKey(Merge(Sort(left, key, descending), Sort(right, key, descending), key, descending), key, k)
            == WithKey(left + right, key, k)
  {
    SortSorted(left, key, descending);
    SortSorted(right, key, descending);
    MergeStable(Sort(left, key, descending), Sort(right, key, descending), key, descending, k);
    WithKeyAppend(left, right, key, k);
  }

  /** Merging runs where every left key may precede the first right key
      concatenates them. */
  lemma {:induction false} MergeOrderedRuns<X>(left: seq<X>, right: seq<X>, key: X -> int, descending: bool)
    requires right != [] ==> forall i :: 0 <= i < |left| ==> Ordered(descending, key(left[i]), key(right[0]))
    ensures Merge(left, right, key, descending) == left + right
    decreases |left|
  {
    if left == [] {
      assert left + right == right;
    } else if right == [] {
      assert left + right == left;
    } else {
      assert Ordered(descending, key(left[0]), key(right[0]));
      assert forall i :: 0 <= i < |left| - 1 ==> left[1..][i] == left[i + 1];
      MergeOrderedRuns(left[1..], right, key, descending);
      assert left + right == [left[0]] + (left[1..] + right);
    }
  }

  /** Sorting an already sorted run leaves it as it is; in particular
      sorting twice is sorting once. */
  lemma {:induction false} SortOfSorted<X>(s: seq<X>, key: X -> int, descending: bool)
    requires SortedBy(s, key, descending)
    ensures Sort(s, key, descending) == s
    decreases |s|
  {
    if |s| > 1 {
      var mid := SortStep(s, key, descending);
      var left, right := s[..mid], s[mid..];
      SortedSplit(s, mid, key, descending);
      SortOfSorted(left, key, descending);
      SortOfSorted(right, key, descending);
      MergeOrderedRuns(left, right, key, descending);
    }
  }

  /** The two runs a sorted run splits into are sorted, and every key of
      the left run may precede the first key of the right run. */
  lemma SortedSplit<X>(s: seq<X>, mid: nat, key: X -> int, descending: bool)
    requires SortedBy(s, key, descending) && 0 < mid < |s|
    ensures SortedBy(s[..mid], key, descending) && SortedBy(s[mid..], key, descending)
    ensures forall i :: 0 <= i < mid ==> Ordered(descending, key(s[..mid][i]), key(s[mid..][0]))
  {
    SortedSlice(s, 0, mid, key, descending);
    SortedSlice(s, mid, |s|, key, descending);
    assert s[0..mid] == s[..mid] && s[mid..|s|] == s[mid..];
    forall i | 0 <= i < mid
      ensures Ordered(descending, key(s[..mid][i]), key(s[mid..][0]))
    {
      assert s[..mid][i] == s[i] && s[mid..][0] == s[mid];
    }
  }
}
