/**
 * Binary search over a list of integers sorted in non-decreasing order: `find` (some index
 * holding the target, or -1), `lowerBound` (the first index whose value is not below the target)
 * and `upperBound` (the first index whose value is above the target).
 *
 * Each loop is a method proved equal to a recursive function that halves the same window; the
 * properties the library promises are proved about those functions.  The optional trailing
 * arguments (`null` by default) are `Option`s.  The midpoint adds to `lo` half the width of the
 * window by a right shift, taken on a non-negative difference, where the shift is division by two.
 */
module BinarySearch {
  import opened Common

  predicate Sorted(s: seq<int>)
  {
    forall i, j :: 0 <= i <= j < |s| ==> s[i] <= s[j]
  }

  /** The tail index of `find`: the one given, or by default the last index of the list. */
  function FindTail(list: seq<int>, tailIdx: Option<int>): int
  {
    if tailIdx.Some? then tailIdx.value else |list| - 1
  }

  /** The high index of the bounds: the one given, or by default the length of the list. */
  function BoundHigh(list: seq<int>, highIdx: Option<int>): int
  {
    if highIdx.Some? then highIdx.value else |list|
  }

  /** Every index of the window `[lo, hi]`, when it is not empty, is an index of the list. */
  predicate InBounds(list: seq<int>, lo: int, hi: int)
  {
    lo <= hi ==> 0 <= lo && hi < |list|
  }

  /** The midpoint of a window, half its width (shifted right by one) past `lo`: inside it, and below `hi` when `lo < hi`. */
  function Mid(lo: int, hi: int): (m: int)
    requires lo <= hi
    ensures lo <= m <= hi
    ensures lo < hi ==> m < hi
  {
    lo + (hi - lo) / 2
  }

  /** The target occurs in the window `[lo, hi]`. */
  ghost predicate Occurs(list: seq<int>, target: int, lo: int, hi: int)
    requires InBounds(list, lo, hi)
  {
    exists i :: lo <= i <= hi && list[i] == target
  }

  /** The search `find` performs on the window `[head, tail]`: an index holding the target, or -1. */
  function FindIn(list: seq<int>, target: int, head: int, tail: int): (r: int)
    requires InBounds(list, head, tail)
    ensures r == -1 || (head <= r <= tail && list[r] == target)
    decreases tail - head
  {
    if head > tail then -1
    else
      var mid := Mid(head, tail);
      if list[mid] < target then FindIn(list, target, mid + 1, tail)
      else if list[mid] > target then FindIn(list, target, head, mid - 1)
      else mid
  }

  /** On a sorted list, the values up to one below the target are all below it ... */
  lemma BelowUpTo(list: seq<int>, target: int, lo: int, mid: int)
    requires Sorted(list) && 0 <= lo <= mid < |list| && list[mid] < target
    ensures forall i :: lo <= i <= mid ==> list[i] < target
  {
  }

  /** ... and the values from one above it on are all above it. */
  lemma AboveFrom(list: seq<int>, target: int, mid: int, hi: int)
    requires Sorted(list) && 0 <= mid <= hi < |list| && list[mid] > target
    ensures forall i :: mid <= i <= hi ==> list[i] > target
  {
  }

  /** One halving step of `find`. */
  lemma FindStep(list: seq<int>, target: int, head: int, tail: int)
    requires InBounds(list, head, tail) && head <= tail
    ensures var mid := Mid(head, tail);
      FindIn(list, target, head, tail) ==
        if list[mid] < target then FindIn(list, target, mid + 1, tail)
        else if list[mid] > target then FindIn(list, target, head, mid - 1)
        else mid
  {
  }

  /**
   * On a sorted list, `find` gives -1 only when the target does not occur in the window: each
   * halving step discards a part that cannot hold it.
   */
  lemma {:induction false} FindInAbsent(list: seq<int>, target: int, head: int, tail: int)
    requires InBounds(list, head, tail) && Sorted(list)
    ensures FindIn(list, target, head, tail) == -1 ==> !Occurs(list, target, head, tail)
    decreases tail - head
  {
    if head <= tail {
      var mid := Mid(head, tail);
      FindStep(list, target, head, tail);
      if list[mid] < target {
        FindInAbsent(list, target, mid + 1, tail);
        BelowUpTo(list, target, head, mid);
      } else if list[mid] > target {
        FindInAbsent(list, target, head, mid - 1);
        AboveFrom(list, target, mid, tail);
      }
    }
  }

  /**
   * find: halve the window `[headIdx, tailIdx]` until its midpoint holds the target.  The
   * result is -1 or an index of the window holding the target; on a sorted list it is -1 only
   * when the target does not occur there.
   */
  method Find(list: seq<int>, target: int, headIdx: int, tailIdx: Option<int>) returns (r: int)
    requires InBounds(list, headIdx, FindTail(list, tailIdx))
    ensures r == FindIn(list, target, headIdx, FindTail(list, tailIdx))
    ensures r == -1 || (headIdx <= r <= FindTail(list, tailIdx) && list[r] == target)
    ensures Sorted(list) ==> (r == -1 <==> !Occurs(list, target, headIdx, FindTail(list, tailIdx)))
  {
    var head, tail := headIdx, FindTail(list, tailIdx);
    if Sorted(list) {
      FindInAbsent(list, target, head, tail);
    }
    ghost var result := FindIn(list, target, head, tail);
    while head <= tail
      invariant InBounds(list, head, tail)
      invariant FindIn(list, target, head, tail) == result
      decreases tail - head
    {
      FindStep(list, target, head, tail);
      var mid := Mid(head, tail);
      if list[mid] < target {
        head := mid + 1;
      } else if list[mid] > target {
        tail := mid - 1;
      } else {
        return mid;
      }
    }
    return -1;
  }

  /**
   * `r` splits the window `[low, high)` into the values below the target, then the values that
   * are not: the leftmost insertion point keeping the list sorted.
   */
  ghost predicate IsLowerBound(list: seq<int>, target: int, low: int, high: int, r: int)
  {
    0 <= low <= r <= high <= |list| &&
    (forall i :: low <= i < r ==> list[i] < target) &&
    (forall i :: r <= i < high ==> list[i] >= target)
  }

  /** The same split with the values not above the target first: the rightmost insertion point. */
  ghost predicate IsUpperBound(list: seq<int>, target: int, low: int, high: int, r: int)
  {
    0 <= low <= r <= high <= |list| &&
    (forall i :: low <= i < r ==> list[i] <= target) &&
    (forall i :: r <= i < high ==> list[i] > target)
  }

  /** The search `lowerBound` performs on the window `[low, high)`. */
  function LowerBoundIn(list: seq<int>, target: int, low: int, high: int): (r: int)
    requires InBounds(list, low, high - 1)
    ensures low < high ==> low <= r <= high
    ensures low >= high ==> r == low
    decreases high - low
  {
    if low >= high then low
    else
      var mid := Mid(low, high);
      if list[mid] < target then LowerBoundIn(list, target, mid + 1, high)
      else LowerBoundIn(list, target, low, mid)
  }

  /** The search `upperBound` performs on the window `[low, high)`. */
  function UpperBoundIn(list: seq<int>, target: int, low: int, high: int): (r: int)
    requires InBounds(list, low, high - 1)
    ensures low < high ==> low <= r <= high
    ensures low >= high ==> r == low
    decreases high - low
  {
    if low >= high then low
    else
      var mid := Mid(low, high);
      if list[mid] <= target then UpperBoundIn(list, target, mid + 1, high)
      else UpperBoundIn(list, target, low, mid)
  }

  /** On a sorted list, `lowerBound` returns the leftmost insertion point of the target. */
  lemma {:induction false} LowerBoundInSplits(list: seq<int>, target: int, low: int, high: int)
    requires Sorted(list) && 0 <= low <= high <= |list|
    ensures IsLowerBound(list, target, low, high, LowerBoundIn(list, target, low, high))
    decreases high - low
  {
    if low < high {
      var mid := Mid(low, high);
      if list[mid] < target {
        LowerBoundInSplits(list, target, mid + 1, high);
      } else {
        LowerBoundInSplits(list, target, low, mid);
      }
    }
  }

  /** On a sorted list, `upperBound` returns the rightmost insertion point of the target. */
  lemma {:induction false} UpperBoundInSplits(list: seq<int>, target: int, low: int, high: int)
    requires Sorted(list) && 0 <= low <= high <= |list|
    ensures IsUpperBound(list, target, low, high, UpperBoundIn(list, target, low, high))
    decreases high - low
  {
    if low < high {
      var mid := Mid(low, high);
      if list[mid] <= target {
        UpperBoundInSplits(list, target, mid + 1, high);
      } else {
        UpperBoundInSplits(list, target, low, mid);
      }
    }
  }

  /** There is only one leftmost insertion point. */
  lemma LowerBoundUnique(list: seq<int>, target: int, low: int, high: int, r1: int, r2: int)
    requires IsLowerBound(list, target, low, high, r1) && IsLowerBound(list, target, low, high, r2)
    ensures r1 == r2
  {
    if low < r1 {
      assert list[r1 - 1] < target;
    }
    if low < r2 {
      assert list[r2 - 1] < target;
    }
  }

  /** There is only one rightmost insertion point. */
  lemma UpperBoundUnique(list: seq<int>, target: int, low: int, high: int, r1: int, r2: int)
    requires IsUpperBound(list, target, low, high, r1) && IsUpperBound(list, target, low, high, r2)
    ensures r1 == r2
  {
    if low < r1 {
      assert list[r1 - 1] <= target;
    }
    if low < r2 {
      assert list[r2 - 1] <= target;
    }
  }

  /**
   * The leftmost insertion point never lies after the rightmost one, and they coincide when the
   * target does not occur in the window.
   */
  lemma BoundsOrdered(list: seq<int>, target: int, low: int, high: int, lb: int, ub: int)
    requires IsLowerBound(list, target, low, high, lb) && IsUpperBound(list, target, low, high, ub)
    ensures lb <= ub
    ensures !Occurs(list, target, low, high - 1) ==> lb == ub
  {
    if low < lb {
      assert list[lb - 1] < target;
    }
    if lb < ub {
      assert list[lb] >= target && list[lb] <= target;
    }
  }

  /** One halving step of `lowerBound`. */
  lemma LowerBoundStep(list: seq<int>, target: int, low: int, high: int)
    requires InBounds(list, low, high - 1) && low < high
    ensures var mid := Mid(low, high);
      LowerBoundIn(list, target, low, high) ==
        if list[mid] < target then LowerBoundIn(list, target, mid + 1, high) else LowerBoundIn(list, target, low, mid)
  {
  }

  /**
   * lowerBound: halve the window `[lowIdx, highIdx)` keeping the first value not below the
   * target inside it; on a sorted list the result is the leftmost insertion point.
   */
  method LowerBound(list: seq<int>, target: int, lowIdx: int, highIdx: Option<int>) returns (r: int)
    requires InBounds(list, lowIdx, BoundHigh(list, highIdx) - 1)
    ensures r == LowerBoundIn(list, target, lowIdx, BoundHigh(list, highIdx))
    ensures var high := BoundHigh(list, highIdx);
      Sorted(list) && 0 <= lowIdx <= high <= |list| ==> IsLowerBound(list, target, lowIdx, high, r)
  {
    var low, high := lowIdx, BoundHigh(list, highIdx);
    ghost var result := LowerBoundIn(list, target, low, high);
    while low < high
      invariant InBounds(list, low, high - 1)
      invariant LowerBoundIn(list, target, low, high) == result
      decreases high - low
    {
      LowerBoundStep(list, target, low, high);
      var mid := Mid(low, high);
      if list[mid] < target {
        low := mid + 1;
      } else {
        high := mid;
      }
    }
    if Sorted(list) && 0 <= lowIdx <= BoundHigh(list, highIdx) <= |list| {
      LowerBoundInSplits(list, target, lowIdx, BoundHigh(list, highIdx));
    }
    return low;
  }

  /** One halving step of `upperBound`. */
  lemma UpperBoundStep(list: seq<int>, target: int, low: int, high: int)
    requires InBounds(list, low, high - 1) && low < high
    ensures var mid := Mid(low, high);
      UpperBoundIn(list, target, low, high) ==
        if list[mid] <= target then UpperBoundIn(list, target, mid + 1, high) else UpperBoundIn(list, target, low, mid)
  {
  }

  /**
   * upperBound: halve the window `[lowIdx, highIdx)` keeping the first value above the target
   * inside it; on a sorted list the result is the rightmost insertion point.
   */
  method UpperBound(list: seq<int>, target: int, lowIdx: int, highIdx: Option<int>) returns (r: int)
    requires InBounds(list, lowIdx, BoundHigh(list, highIdx) - 1)
    ensures r == UpperBoundIn(list, target, lowIdx, BoundHigh(list, highIdx))
    ensures var high := BoundHigh(list, highIdx);
      Sorted(list) && 0 <= lowIdx <= high <= |list| ==> IsUpperBound(list, target, lowIdx, high, r)
  {
    var low, high := lowIdx, BoundHigh(list, highIdx);
    ghost var result := UpperBoundIn(list, target, low, high);
    while low < high
      invariant InBounds(list, low, high - 1)
      invariant UpperBoundIn(list, target, low, high) == result
      decreases high - low
    {
      UpperBoundStep(list, target, low, high);
      var middle := Mid(low, high);
      if list[middle] <= target {
        low := middle + 1;
      } else {
        high := middle;
      }
    }
    if Sorted(list) && 0 <= lowIdx <= BoundHigh(list, highIdx) <= |list| {
      UpperBoundInSplits(list, target, lowIdx, BoundHigh(list, highIdx));
    }
    return low;
  }

  /**
   * Over a whole sorted list, a target below the head value has both insertion points at 0, and
   * one above the tail value has both at the list's length.
   */
  lemma BoundsOutside(list: seq<int>, target: int)
    requires Sorted(list) && list != []
    ensures target < list[0] ==>
      LowerBoundIn(list, target, 0, |list|) == 0 && UpperBoundIn(list, target, 0, |list|) == 0
    ensures target > list[|list| - 1] ==>
      LowerBoundIn(list, target, 0, |list|) == |list| && UpperBoundIn(list, target, 0, |list|) == |list|
  {
    var n := |list|;
    LowerBoundInSplits(list, target, 0, n);
    UpperBoundInSplits(list, target, 0, n);
    if target < list[0] {
      LowerBoundUnique(list, target, 0, n, LowerBoundIn(list, target, 0, n), 0);
      UpperBoundUnique(list, target, 0, n, UpperBoundIn(list, target, 0, n), 0);
    }
    if target > list[n - 1] {
      LowerBoundUnique(list, target, 0, n, LowerBoundIn(list, target, 0, n), n);
      UpperBoundUnique(list, target, 0, n, UpperBoundIn(list, target, 0, n), n);
    }
  }

  /** The sorted lists of the library's own examples. */
  const BasicList: seq<int> := [-10, -3, -2, -1, 0, 4, 5, 9, 10, 12, 15, 16, 20]
  const ListWithDuplicates: seq<int> := [-10, -3, -3, -1, 0, 4, 4, 6, 10, 10, 15, 16, 20]

  /** `b` holds the values of BasicList, spelled out one index at a time. */
  predicate IsBasicList(b: seq<int>)
  {
    |b| == 13 &&
    b[0] == -10 && b[1] == -3 && b[2] == -2 && b[3] == -1 && b[4] == 0 && b[5] == 4 && b[6] == 5 &&
    b[7] == 9 && b[8] == 10 && b[9] == 12 && b[10] == 15 && b[11] == 16 && b[12] == 20
  }

  /** `d` holds the values of ListWithDuplicates, spelled out one index at a time. */
  predicate IsDuplicatesList(d: seq<int>)
  {
    |d| == 13 &&
    d[0] == -10 && d[1] == -3 && d[2] == -3 && d[3] == -1 && d[4] == 0 && d[5] == 4 && d[6] == 4 &&
    d[7] == 6 && d[8] == 10 && d[9] == 10 && d[10] == 15 && d[11] == 16 && d[12] == 20
  }

  /** The two lists of the examples are sorted and are the lists the examples below reason about. */
  lemma BasicListFacts()
    ensures IsBasicList(BasicList) && Sorted(BasicList)
  {
  }

  lemma DuplicatesListFacts()
    ensures IsDuplicatesList(ListWithDuplicates) && Sorted(ListWithDuplicates)
  {
  }

  /** The library's `find` examples: a hit ... */
  lemma FindExample(b: seq<int>)
    requires IsBasicList(b)
    ensures FindIn(b, 10, 0, FindTail(b, None)) == 8
  {
    calc {
      FindIn(b, 10, 0, 12);
      { FindStep(b, 10, 0, 12); }
      FindIn(b, 10, 7, 12);
      { FindStep(b, 10, 7, 12); }
      FindIn(b, 10, 7, 8);
      { FindStep(b, 10, 7, 8); }
      FindIn(b, 10, 8, 8);
      { FindStep(b, 10, 8, 8); }
      8;
    }
  }

  /** ... and a miss. */
  lemma FindAbsentExample(b: seq<int>)
    requires IsBasicList(b)
    ensures FindIn(b, 3, 0, FindTail(b, None)) == -1
  {
    calc {
      FindIn(b, 3, 0, 12);
      { FindStep(b, 3, 0, 12); }
      FindIn(b, 3, 0, 5);
      { FindStep(b, 3, 0, 5); }
      FindIn(b, 3, 3, 5);
      { FindStep(b, 3, 3, 5); }
      FindIn(b, 3, 5, 5);
      { FindStep(b, 3, 5, 5); }
      FindIn(b, 3, 5, 4);
      -1;
    }
  }

  /** With duplicates, `find` gives the matching index its halving reaches first: 9, not 8. */
  lemma FindDuplicateExample(d: seq<int>)
    requires IsDuplicatesList(d)
    ensures FindIn(d, 10, 0, FindTail(d, None)) == 9 && d[8] == 10
  {
    calc {
      FindIn(d, 10, 0, 12);
      { FindStep(d, 10, 0, 12); }
      FindIn(d, 10, 7, 12);
      { FindStep(d, 10, 7, 12); }
      9;
    }
  }

  /** On an empty list `find` gives -1 and both bounds give 0. */
  lemma EmptyListExamples(e: seq<int>, target: int)
    requires |e| == 0
    ensures FindIn(e, target, 0, FindTail(e, None)) == -1
    ensures LowerBoundIn(e, target, 0, BoundHigh(e, None)) == 0
    ensures UpperBoundIn(e, target, 0, BoundHigh(e, None)) == 0
  {
  }

  /** The library's `lowerBound` examples: a value present ... */
  lemma LowerBoundExample(b: seq<int>)
    requires IsBasicList(b)
    ensures LowerBoundIn(b, 10, 0, BoundHigh(b, None)) == 8
  {
    calc {
      LowerBoundIn(b, 10, 0, 13);
      { LowerBoundStep(b, 10, 0, 13); }
      LowerBoundIn(b, 10, 7, 13);
      { LowerBoundStep(b, 10, 7, 13); }
      LowerBoundIn(b, 10, 7, 10);
      { LowerBoundStep(b, 10, 7, 10); }
      LowerBoundIn(b, 10, 7, 8);
      { LowerBoundStep(b, 10, 7, 8); }
      LowerBoundIn(b, 10, 8, 8);
      8;
    }
  }

  /** ... and one absent, whose insertion point is the first greater value. */
  lemma LowerBoundAbsentExample(b: seq<int>)
    requires IsBasicList(b)
    ensures LowerBoundIn(b, 3, 0, BoundHigh(b, None)) == 5
  {
    calc {
      LowerBoundIn(b, 3, 0, 13);
      { LowerBoundStep(b, 3, 0, 13); }
      LowerBoundIn(b, 3, 0, 6);
      { LowerBoundStep(b, 3, 0, 6); }
      LowerBoundIn(b, 3, 4, 6);
      { LowerBoundStep(b, 3, 4, 6); }
      LowerBoundIn(b, 3, 4, 5);
      { LowerBoundStep(b, 3, 4, 5); }
      LowerBoundIn(b, 3, 5, 5);
      5;
    }
  }

  /** The library's `upperBound` examples: a value present ... */
  lemma UpperBoundExample(b: seq<int>)
    requires IsBasicList(b)
    ensures UpperBoundIn(b, 10, 0, BoundHigh(b, None)) == 9
  {
    calc {
      UpperBoundIn(b, 10, 0, 13);
      { UpperBoundStep(b, 10, 0, 13); }
      UpperBoundIn(b, 10, 7, 13);
      { UpperBoundStep(b, 10, 7, 13); }
      UpperBoundIn(b, 10, 7, 10);
      { UpperBoundStep(b, 10, 7, 10); }
      UpperBoundIn(b, 10, 9, 10);
      { UpperBoundStep(b, 10, 9, 10); }
      UpperBoundIn(b, 10, 9, 9);
      9;
    }
  }

  /** ... and one absent, where both bounds agree. */
  lemma UpperBoundAbsentExample(b: seq<int>)
    requires IsBasicList(b)
    ensures UpperBoundIn(b, 3, 0, BoundHigh(b, None)) == 5
  {
    calc {
      UpperBoundIn(b, 3, 0, 13);
      { UpperBoundStep(b, 3, 0, 13); }
      UpperBoundIn(b, 3, 0, 6);
      { UpperBoundStep(b, 3, 0, 6); }
      UpperBoundIn(b, 3, 4, 6);
      { UpperBoundStep(b, 3, 4, 6); }
      UpperBoundIn(b, 3, 4, 5);
      { UpperBoundStep(b, 3, 4, 5); }
      UpperBoundIn(b, 3, 5, 5);
      5;
    }
  }

  /** With duplicates, the two bounds enclose the run of values equal to the target. */
  lemma DuplicateLowerBoundExample(d: seq<int>)
    requires IsDuplicatesList(d)
    ensures LowerBoundIn(d, 10, 0, BoundHigh(d, None)) == 8
  {
    calc {
      LowerBoundIn(d, 10, 0, 13);
      { LowerBoundStep(d, 10, 0, 13); }
      LowerBoundIn(d, 10, 7, 13);
      { LowerBoundStep(d, 10, 7, 13); }
      LowerBoundIn(d, 10, 7, 10);
      { LowerBoundStep(d, 10, 7, 10); }
      LowerBoundIn(d, 10, 7, 8);
      { LowerBoundStep(d, 10, 7, 8); }
      LowerBoundIn(d, 10, 8, 8);
      8;
    }
  }

  /** upperBound of 10 in the list with duplicates: past the second 10, at index 10. */
  lemma DuplicateUpperBoundExample(d: seq<int>)
    requires IsDuplicatesList(d)
    ensures UpperBoundIn(d, 10, 0, BoundHigh(d, None)) == 10
  {
    calc {
      UpperBoundIn(d, 10, 0, 13);
      { UpperBoundStep(d, 10, 0, 13); }
      UpperBoundIn(d, 10, 7, 13);
      { UpperBoundStep(d, 10, 7, 13); }
      UpperBoundIn(d, 10, 7, 10);
      { UpperBoundStep(d, 10, 7, 10); }
      UpperBoundIn(d, 10, 9, 10);
      { UpperBoundStep(d, 10, 9, 10); }
      UpperBoundIn(d, 10, 10, 10);
      10;
    }
  }
}
