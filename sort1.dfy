/**
 * The six sorting routines of sort1.cpp, each rearranging an array of ints
 * in place: insertion sort, selection sort, the sentinel merge and merge
 * sort, Hoare partition and quick sort. Every sort is proved to leave its
 * range a sorted permutation of what was there, and nothing else changed
 * (SortsRange); the helpers state exactly what they compute.
 */
module Sort1 {
  import opened SortSpec

  /**
   * Insertion sort of a[0..n): each a[i] is saved, the larger elements before
   * it are shifted one slot right, and the saved value is dropped into the gap.
   * A count n <= 1 (including a negative one) changes nothing.
   */
  method InsertionSort(a: array<int>, n: int)
    requires n <= a.Length
    modifies a
    ensures SortsRange(old(a[..]), a[..], 0, n - 1)
  {
    var i := 1;
    while i <= n - 1
      invariant 1 <= i && (i <= n || i == 1)
      invariant i <= n ==> Sorted(a[..i])
      invariant i == 1 ==> a[..] == old(a[..])
      invariant SameOutside(old(a[..]), a[..], 0, i - 1)
      invariant multiset(a[..]) == old(multiset(a[..]))
    {
      Insert(a, i);
      i := i + 1;
    }
    if 0 < n - 1 {
      RangePermutation(old(a[..]), a[..], 0, n - 1);
    }
  }

  /**
   * One pass of the outer loop of insertion sort: the key a[i] is saved, the
   * elements of the sorted prefix a[0..i) that exceed it are shifted one slot
   * right, scanning leftwards, and the key is dropped into the gap.
   */
  method Insert(a: array<int>, i: int)
    requires 1 <= i < a.Length && Sorted(a[..i])
    modifies a
    ensures Sorted(a[..i + 1])
    ensures multiset(a[..]) == old(multiset(a[..]))
    ensures SameOutside(old(a[..]), a[..], 0, i)
  {
    var pivot := a[i];
    ghost var s := a[..];
    var j := ShiftLarger(a, i, pivot);
    a[j + 1] := pivot;
    InsertionStepPermutes(a, s, i, j);
    InsertionStepSorts(a, s, i, j);
  }

  /**
   * The inner loop of insertion sort: scanning leftwards from i - 1, every
   * element greater than pivot is copied one slot right, stopping at the first
   * element <= pivot or at the front. The returned j is the index of that
   * element (or -1), so j + 1 is the gap left for the key.
   */
  method ShiftLarger(a: array<int>, i: int, pivot: int) returns (j: int)
    requires 0 <= i < a.Length
    modifies a
    ensures -1 <= j < i && (j >= 0 ==> a[j] <= pivot)
    ensures forall k :: 0 <= k <= j ==> a[k] == old(a[k])
    ensures a[j + 1] == old(a[j + 1])
    ensures forall k :: j + 2 <= k <= i ==> a[k] == old(a[k - 1]) && a[k] > pivot
    ensures forall k :: i < k < a.Length ==> a[k] == old(a[k])
  {
    j := i - 1;
    ghost var s := a[..];
    while j >= 0 && a[j] > pivot
      invariant -1 <= j <= i - 1
      invariant forall k :: 0 <= k <= j ==> a[k] == s[k]
      invariant a[j + 1] == s[j + 1]
      invariant forall k :: j + 2 <= k <= i ==> a[k] == s[k - 1] && a[k] > pivot
      invariant forall k :: i < k < a.Length ==> a[k] == s[k]
    {
      a[j + 1] := a[j];
      j := j - 1;
    }
  }

  /**
   * One step of insertion sort keeps the values: if the array a holds s with
   * s[i] moved to position j + 1 and s[j+1..i-1] moved one slot right, and
   * nothing else changed, then a holds a permutation of s.
   */
  lemma InsertionStepPermutes(a: array<int>, s: seq<int>, i: int, j: int)
    requires 0 <= i < |s| == a.Length && -1 <= j < i
    requires forall k :: 0 <= k <= j ==> a[k] == s[k]
    requires a[j + 1] == s[i]
    requires forall k :: j + 2 <= k <= i ==> a[k] == s[k - 1]
    requires forall k :: i < k < a.Length ==> a[k] == s[k]
    ensures multiset(a[..]) == multiset(s)
  {
    var t := a[..];
    assert t[..j + 1] == s[..j + 1];
    assert t[j + 2..i + 1] == s[j + 1..i];
    assert t[i + 1..] == s[i + 1..];
    RotationPermutes(s, t, j + 1, i);
  }

  /**
   * Moving s[hi] to index lo and s[lo..hi) one slot right keeps the values.
   */
  lemma RotationPermutes(s: seq<int>, t: seq<int>, lo: int, hi: int)
    requires 0 <= lo <= hi < |s| == |t|
    requires t[..lo] == s[..lo] && t[lo] == s[hi]
    requires t[lo + 1..hi + 1] == s[lo..hi] && t[hi + 1..] == s[hi + 1..]
    ensures multiset(t) == multiset(s)
  {
    assert t == t[..lo] + [t[lo]] + t[lo + 1..hi + 1] + t[hi + 1..];
    assert s == s[..lo] + s[lo..hi] + [s[hi]] + s[hi + 1..];
  }

  /**
   * One step of insertion sort extends the sorted prefix: if s[0..i) was
   * sorted, s[i] was placed at j + 1 after s[j] <= s[i] (or j = -1), and the
   * elements moved right all exceed s[i], then a[0..i] is sorted.
   */
  lemma InsertionStepSorts(a: array<int>, s: seq<int>, i: int, j: int)
    requires 0 <= i < |s| == a.Length && -1 <= j < i
    requires Sorted(s[..i])
    requires forall k :: 0 <= k <= j ==> a[k] == s[k]
    requires a[j + 1] == s[i] && (j >= 0 ==> s[j] <= s[i])
    requires forall k :: j + 2 <= k <= i ==> a[k] == s[k - 1] && a[k] > s[i]
    ensures Sorted(a[..i + 1])
  {
    forall x, y | 0 <= x < y <= i ensures a[x] <= a[y] {
      if y <= j {
        assert s[..i][x] <= s[..i][y];
      } else if x <= j {
        assert s[..i][x] <= s[..i][j];
      } else if x >= j + 2 {
        assert s[..i][x - 1] <= s[..i][y - 1];
      }
    }
  }

  /**
   * The inner scan of selection sort: the index of the leftmost minimum of
   * a[i..n), found by replacing the candidate only on a strictly smaller value.
   */
  method LeftmostMinIndex(a: array<int>, i: int, n: int) returns (minIdx: int)
    requires 0 <= i < n <= a.Length
    ensures i <= minIdx < n
    ensures forall k :: i <= k < n ==> a[minIdx] <= a[k]
    ensures forall k :: i <= k < minIdx ==> a[minIdx] < a[k]
  {
    minIdx := i;
    var j := i + 1;
    while j <= n - 1
      invariant i + 1 <= j <= n
      invariant i <= minIdx < j
      invariant forall k :: i <= k < j ==> a[minIdx] <= a[k]
      invariant forall k :: i <= k < minIdx ==> a[minIdx] < a[k]
    {
      if a[j] < a[minIdx] {
        minIdx := j;
      }
      j := j + 1;
    }
  }

  /**
   * Selection sort of a[0..n): for each i up to n - 2, the leftmost minimum
   * of a[i..n) is swapped into position i, the swap being skipped when the two
   * values are equal (a value comparison, not an index comparison).
   */
  method SelectionSort(a: array<int>, n: int)
    requires n <= a.Length
    modifies a
    ensures SortsRange(old(a[..]), a[..], 0, n - 1)
  {
    var i := 0;
    while i <= n - 2
      invariant 0 <= i && (i == 0 || i <= n - 1)
      invariant i == 0 ==> a[..] == old(a[..])
      invariant Sorted(a[..i])
      invariant forall x, y :: 0 <= x < i <= y < n ==> a[x] <= a[y]
      invariant multiset(a[..]) == old(multiset(a[..]))
      invariant SameOutside(old(a[..]), a[..], 0, n - 1)
    {
      ghost var s := a[..];
      var _ := SelectInto(a, i, n);
      SameOutsideTrans(old(a[..]), s, a[..], 0, n - 1, i, n - 1);
      i := i + 1;
    }
    if 0 < n - 1 {
      RangePermutation(old(a[..]), a[..], 0, n - 1);
    }
  }

  /**
   * One pass of the outer loop of selection sort: the leftmost minimum of
   * a[i..n) is exchanged with a[i] unless the two values are equal. If a[0..i)
   * is sorted and no element of it exceeds an element of a[i..n), the same
   * then holds with i + 1, and only a[i..n) was rearranged. The new array is
   * the old one with a[i] and a[minIdx] exchanged, where minIdx is the index
   * of the leftmost minimum of a[i..n).
   */
  method SelectInto(a: array<int>, i: int, n: int) returns (minIdx: int)
    requires 0 <= i < n <= a.Length
    requires Sorted(a[..i])
    requires forall x, y :: 0 <= x < i <= y < n ==> a[x] <= a[y]
    modifies a
    ensures Sorted(a[..i + 1])
    ensures forall x, y :: 0 <= x < i + 1 <= y < n ==> a[x] <= a[y]
    ensures multiset(a[..]) == old(multiset(a[..]))
    ensures SameOutside(old(a[..]), a[..], i, n - 1)
    ensures i <= minIdx < n
    ensures forall k :: i <= k < n ==> old(a[minIdx]) <= old(a[k])
    ensures forall k :: i <= k < minIdx ==> old(a[minIdx]) < old(a[k])
    ensures a[..] == old(a[..])[i := old(a[minIdx])][minIdx := old(a[i])]
  {
    ghost var s := a[..];
    minIdx := LeftmostMinIndex(a, i, n);
    if a[i] != a[minIdx] {
      a[i], a[minIdx] := a[minIdx], a[i];
    }
    SwapPermutes(a, s, i, minIdx);
    SwapIsUpdate(a, s, i, minIdx);
    SelectionStepSorts(a, s, i, n, minIdx);
  }

  /**
   * An exchange keeps the values: if a is s with the entries at x and y
   * exchanged (x == y allowed), then a holds a permutation of s and nothing
   * outside x..y changed.
   */
  lemma SwapPermutes(a: array<int>, s: seq<int>, x: int, y: int)
    requires 0 <= x <= y < a.Length == |s|
    requires a[x] == s[y] && a[y] == s[x]
    requires forall k :: 0 <= k < a.Length && k != x && k != y ==> a[k] == s[k]
    ensures multiset(a[..]) == multiset(s)
    ensures SameOutside(s, a[..], x, y)
  {
    if x == y {
      assert a[..] == s;
    } else {
      var f, g, h, t := s[..x], s[x + 1..y], s[y + 1..], a[..];
      assert s == f + [s[x]] + g + [s[y]] + h;
      assert t == f + [s[y]] + g + [s[x]] + h;
    }
  }

  /** The same exchange, stated as two updates of s. */
  lemma SwapIsUpdate(a: array<int>, s: seq<int>, x: int, y: int)
    requires 0 <= x <= y < a.Length == |s|
    requires a[x] == s[y] && a[y] == s[x]
    requires forall k :: 0 <= k < a.Length && k != x && k != y ==> a[k] == s[k]
    ensures a[..] == s[x := s[y]][y := s[x]]
  {
    var t := s[x := s[y]][y := s[x]];
    forall k | 0 <= k < a.Length ensures a[k] == t[k] {
    }
  }

  /**
   * One step of selection sort extends the sorted prefix: if s[0..i) is
   * sorted and each of its elements is at most every element of s[i..n), and
   * a is s with s[i] and the minimum s[m] of s[i..n) exchanged, then the same
   * holds of a with i + 1.
   */
  lemma SelectionStepSorts(a: array<int>, s: seq<int>, i: int, n: int, m: int)
    requires 0 <= i <= m < n <= a.Length == |s|
    requires Sorted(s[..i])
    requires forall x, y :: 0 <= x < i <= y < n ==> s[x] <= s[y]
    requires forall k :: i <= k < n ==> s[m] <= s[k]
    requires a[i] == s[m] && a[m] == s[i]
    requires forall k :: 0 <= k < a.Length && k != i && k != m ==> a[k] == s[k]
    ensures Sorted(a[..i + 1])
    ensures forall x, y :: 0 <= x < i + 1 <= y < n ==> a[x] <= a[y]
  {
    forall x, y | 0 <= x < i + 1 <= y < n ensures a[x] <= a[y] {
      if x < i {
        assert s[x] <= s[y];
        assert x != m;
      }
    }
    forall x, y | 0 <= x < y < i + 1 ensures a[x] <= a[y] {
      if y < i {
        assert s[..i][x] <= s[..i][y];
      } else {
        assert s[x] <= s[m];
      }
    }
  }

  /**
   * Merges the sorted runs a[p..q] and a[q+1..r] (inclusive bounds) through
   * two buffers of n1 + 1 and n2 + 1 slots, each ending in the sentinel
   * IntMax; ties take the left buffer. Every element of the range must be
   * below IntMax for the sentinels to stop the cursors.
   */
  method Merge(a: array<int>, p: int, q: int, r: int)
    requires 0 <= p <= q + 1 <= r + 1 <= a.Length
    requires RangeBelow(a[..], p, r, IntMax)
    modifies a
    ensures a[p..r + 1] == Merged(old(a[p..q + 1]), old(a[q + 1..r + 1]))
    ensures multiset(a[p..r + 1]) == old(multiset(a[p..r + 1]))
    ensures Sorted(old(a[p..q + 1])) && Sorted(old(a[q + 1..r + 1])) ==> Sorted(a[p..r + 1])
    ensures SameOutside(old(a[..]), a[..], p, r)
  {
    ghost var s := a[..];
    ghost var xs, ys := a[p..q + 1], a[q + 1..r + 1];
    RangeBelowHalves(s, p, q, r, IntMax);
    var n1 := q - p + 1;
    var n2 := r - q;
    var left := CopyWithSentinel(a, p, n1);
    var right := CopyWithSentinel(a, q + 1, n2);
    MergeBack(a, left, right, p, r, xs, ys);
    MergeWritten(a, s, xs, ys, MergedFrom(xs, ys, 0, 0), p, q, r);
  }

  /**
   * The merge loop of Merge: with the buffer left holding the run xs and right
   * holding ys, each followed by the sentinel IntMax, and every element of the
   * runs below IntMax, the loop writes the cursor merge of xs and ys into
   * a[p..r], taking the left buffer on ties, and writes nothing else. The
   * cursors stay within i <= |xs| and j <= |ys|, so no read passes a sentinel.
   */
  method MergeBack(a: array<int>, left: array<int>, right: array<int>, p: int, r: int,
                   ghost xs: seq<int>, ghost ys: seq<int>)
    requires 0 <= p && r < a.Length && r + 1 - p == |xs| + |ys| && left != a && right != a
    requires left.Length == |xs| + 1 && left[..|xs|] == xs && left[|xs|] == IntMax && AllAtMost(xs, IntMax - 1)
    requires right.Length == |ys| + 1 && right[..|ys|] == ys && right[|ys|] == IntMax && AllAtMost(ys, IntMax - 1)
    modifies a
    ensures forall t :: p <= t <= r ==> a[t] == MergedFrom(xs, ys, 0, 0)[t - p]
    ensures forall t :: 0 <= t < a.Length && !(p <= t <= r) ==> a[t] == old(a[t])
  {
    ghost var m := MergedFrom(xs, ys, 0, 0);
    var i, j := 0, 0;
    var k := p;
    while k <= r
      invariant p <= k <= r + 1
      invariant 0 <= i <= |xs| && 0 <= j <= |ys| && i + j == k - p
      invariant m[i + j..] == MergedFrom(xs, ys, i, j)
      invariant forall t :: p <= t < k ==> a[t] == m[t - p]
      invariant forall t :: 0 <= t < a.Length && !(p <= t <= r) ==> a[t] == old(a[t])
    {
      MergeAdvance(xs, ys, m, i, j);
      SentinelChoice(left, right, xs, ys, i, j);
      if left[i] <= right[j] {
        a[k] := left[i];
        i := i + 1;
      } else {
        a[k] := right[j];
        j := j + 1;
      }
      k := k + 1;
    }
  }

  /**
   * The end of Merge: once a[p..r] holds the cursor merge m of the halves xs
   * and ys of s[p..r] index by index, and nothing outside [p, r] differs from
   * s, the range is the merge of the halves, a permutation of s[p..r], sorted
   * when both halves were, and s is unchanged outside it.
   */
  lemma MergeWritten(a: array<int>, s: seq<int>, xs: seq<int>, ys: seq<int>, m: seq<int>, p: int, q: int, r: int)
    requires |s| == a.Length && 0 <= p <= q + 1 <= r + 1 <= a.Length
    requires xs == s[p..q + 1] && ys == s[q + 1..r + 1] && m == MergedFrom(xs, ys, 0, 0)
    requires forall t :: p <= t < r + 1 ==> a[t] == m[t - p]
    requires forall t :: 0 <= t < a.Length && !(p <= t <= r) ==> a[t] == s[t]
    ensures a[p..r + 1] == Merged(xs, ys)
    ensures multiset(a[p..r + 1]) == multiset(s[p..r + 1])
    ensures Sorted(xs) && Sorted(ys) ==> Sorted(a[p..r + 1])
    ensures SameOutside(s, a[..], p, r)
  {
    assert a[p..r + 1] == m;
    MergedFromIsMerged(xs, ys, 0, 0);
    assert xs[0..] == xs && ys[0..] == ys;
    MergedHalvesPermutes(s, p, q, r);
    if Sorted(xs) && Sorted(ys) {
      MergedSorted(xs, ys);
    }
  }

  /**
   * One buffer of Merge: a fresh array of n + 1 slots holding a[lo..lo + n)
   * followed by the sentinel IntMax.
   */
  method CopyWithSentinel(a: array<int>, lo: int, n: int) returns (buf: array<int>)
    requires 0 <= lo && 0 <= n && lo + n <= a.Length
    ensures fresh(buf) && buf.Length == n + 1
    ensures buf[..n] == a[lo..lo + n] && buf[n] == IntMax
  {
    buf := new int[n + 1];
    for t := 0 to n
      invariant buf[..t] == a[lo..lo + t]
    {
      buf[t] := a[lo + t];
    }
    buf[n] := IntMax;
  }

  /**
   * The sentinel comparison of Merge makes the same choice as the merge rule:
   * with the buffer left holding xs and right holding ys, each followed by
   * IntMax, and every element below IntMax, left[i] <= right[j] holds exactly
   * when the next element is taken from xs.
   */
  lemma SentinelChoice(left: array<int>, right: array<int>, xs: seq<int>, ys: seq<int>, i: int, j: int)
    requires left.Length == |xs| + 1 && left[..|xs|] == xs && left[|xs|] == IntMax && AllAtMost(xs, IntMax - 1)
    requires right.Length == |ys| + 1 && right[..|ys|] == ys && right[|ys|] == IntMax && AllAtMost(ys, IntMax - 1)
    requires 0 <= i <= |xs| && 0 <= j <= |ys| && (i < |xs| || j < |ys|)
    ensures (left[i] <= right[j]) == PicksLeft(xs, ys, i, j)
  {
    if i < |xs| {
      assert xs[i] == left[..|xs|][i];
    }
    if j < |ys| {
      assert ys[j] == right[..|ys|][j];
    }
  }

  /**
   * Merge sort of a[p..r] (inclusive): split at the midpoint (p + r) / 2,
   * sort both halves, merge them; p >= r changes nothing. Every element of
   * the range must be below IntMax, as Merge requires.
   */
  method MergeSort(a: array<int>, p: int, r: int)
    requires p >= r || (0 <= p && r < a.Length && RangeBelow(a[..], p, r, IntMax))
    modifies a
    ensures SortsRange(old(a[..]), a[..], p, r)
    decreases r - p
  {
    if p < r {
      var q := (p + r) / 2;
      ghost var s0 := a[..];
      MergeSort(a, p, q);
      ghost var s1 := a[..];
      SortsRangeKeepsBelow(s0, s1, p, q, p, r, IntMax);
      MergeSort(a, q + 1, r);
      ghost var s2 := a[..];
      MergeSortHalves(s0, s1, s2, p, q, r, IntMax);
      Merge(a, p, q, r);
      MergeSortStep(s0, s2, a[..], p, r);
    }
  }

  /**
   * Hoare partition of a[l..r] (inclusive, l < r) around the value pivot =
   * a[l]: cursor i climbs from l - 1 past elements < pivot, cursor j descends
   * from r + 1 past elements > pivot; once they meet or cross, j is returned,
   * otherwise a[i] and a[j] are swapped and the scans resume.
   */
  method Partition(a: array<int>, l: int, r: int) returns (j: int)
    requires 0 <= l < r < a.Length
    modifies a
    ensures l <= j < r
    ensures forall k :: l <= k <= j ==> a[k] <= old(a[l])
    ensures forall k :: j < k <= r ==> a[k] >= old(a[l])
    ensures multiset(a[l..r + 1]) == old(multiset(a[l..r + 1]))
    ensures SameOutside(old(a[..]), a[..], l, r)
  {
    var pivot := a[l];
    var i := l - 1;
    j := r + 1;
    // Indices at which the next scan of i, respectively j, is sure to stop.
    ghost var iStop, jStop := l, l;
    while true
      invariant l - 1 <= i < iStop <= r && a[iStop] >= pivot
      invariant l <= jStop < j <= r + 1 && a[jStop] <= pivot
      invariant i == l - 1 ==> iStop == l
      invariant j == r + 1 ==> i == l - 1
      invariant forall k :: l <= k <= i ==> a[k] <= pivot
      invariant forall k :: j <= k <= r ==> a[k] >= pivot
      invariant multiset(a[..]) == old(multiset(a[..]))
      invariant SameOutside(old(a[..]), a[..], l, r)
      decreases j - i
    {
      ghost var i0, j0 := i, j;
      i := i + 1;
      while a[i] < pivot
        invariant i0 < i <= iStop
        invariant forall k :: i0 < k < i ==> a[k] < pivot
        decreases iStop - i
      {
        i := i + 1;
      }
      j := j - 1;
      while a[j] > pivot
        invariant jStop <= j < j0
        invariant forall k :: j < k < j0 ==> a[k] > pivot
        decreases j - jStop
      {
        j := j - 1;
      }
      if i >= j {
        RangePermutation(old(a[..]), a[..], l, r);
        return j;
      }
      ghost var s := a[..];
      a[i], a[j] := a[j], a[i];
      SwapPermutes(a, s, i, j);
      iStop, jStop := j, i;
    }
  }

  /**
   * Quick sort of a[l..r] (inclusive): partition, then sort [l, q] and
   * [q + 1, r]; l >= r changes nothing. Both recursive ranges are shorter
   * because Partition returns q with l <= q < r.
   */
  method QuickSort(a: array<int>, l: int, r: int)
    requires l >= r || (0 <= l && r < a.Length)
    modifies a
    ensures SortsRange(old(a[..]), a[..], l, r)
    decreases r - l
  {
    if l < r {
      ghost var s0 := a[..];
      var q := Partition(a, l, r);
      ghost var s1 := a[..];
      assert AllAtMost(s1[l..q + 1], s0[l]) && AllAtLeast(s1[q + 1..r + 1], s0[l]);
      QuickSort(a, l, q);
      ghost var s2 := a[..];
      QuickSort(a, q + 1, r);
      QuickSortStep(s0, s1, s2, a[..], l, q, r, s0[l]);
    }
  }
}
