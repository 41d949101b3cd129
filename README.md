# Sorting routines of sort1.cpp, modelled in Dafny

`sorting_algorithms/sort1.cpp` holds six routines. Each rearranges a C++ `int`
array in place:

- insertion sort;
- selection sort, which swaps only when the values differ;
- `merge`, which merges two adjacent runs through buffers that end in an
  `INT_MAX` sentinel;
- merge sort, which splits at the midpoint `(p + r) / 2`;
- Hoare `partition`, with the first element as pivot;
- quick sort.

This project models each routine as a Dafny method on `array<int>` with a
`modifies a` clause. The loops are written as in the source, and each method
is proved against a specification.

- `sort_spec.dfy` (module `SortSpec`) holds the vocabulary of the
  specification:
  - `Sorted`;
  - `SameOutside`: nothing outside a range changed;
  - `SortsRange`: `after` is `before` with the inclusive range `[lo, hi]`
    replaced by a sorted permutation of itself, and a range of at most one
    element changes nothing;
  - `Merged`: the left-biased merge of two sequences;
  - `MergedFrom`: the same merge written with two cursors;
  - `MergeSources`: for each merged position, which run it came from;
  - the lemmas that connect these.
- `sort1.dfy` (module `Sort1`) holds the six routines. It also holds the
  inner loops and loop bodies of the source as helper methods of their own:
  - `Insert` and `ShiftLarger` (insertion sort);
  - `LeftmostMinIndex` and `SelectInto` (selection sort);
  - `CopyWithSentinel` (the buffer fill of `merge`) and `MergeBack` (its merge loop).

  Each helper is called where its loop or body stands in the C++.

All four sorting entry points promise `SortsRange` on the range they are
given:

- `InsertionSort` and `SelectionSort` on `(0, n - 1)`;
- `MergeSort` and `QuickSort` on `(p, r)` and `(l, r)`.

This covers the no-op cases too. A count `n <= 1`, including `n = 0`, and a
range with `p >= r` or `l >= r` leave the array exactly as it was.
`SortsRangeDeterministic` shows there is only one array satisfying
`SortsRange` for a given input. So the routines are also proved to agree with
one another on every input that all four accept. `MergeSort` accepts only
ranges whose elements are all below `INT_MAX`.

## Model

| member | source | states |
|---|---|---|
| Sort1.InsertionSort | sorting_algorithms/sort1.cpp:29-48 | For any `n <= a.Length`, `a[0..n)` becomes a sorted permutation of itself and the rest of the array is unchanged; `n <= 1` (including negative `n`) leaves the array as it was. The outer loop keeps the prefix `a[0..i)` sorted. |
| Sort1.Insert | sorting_algorithms/sort1.cpp:35-45 | One outer iteration: with `a[0..i)` sorted, afterwards `a[0..i]` is sorted, the array is a permutation of what it was, and nothing outside `[0, i]` changed. |
| Sort1.ShiftLarger | sorting_algorithms/sort1.cpp:36-42 | The shifting loop stops at `j >= -1` with `a[j] <= pivot` when `j >= 0`; `a[0..j]` and the gap slot `a[j+1]` keep their old values, each slot of `a[j+2..i]` holds the old value one to its left, which exceeds `pivot`, and nothing right of `i` changed. |
| Sort1.InsertionStepPermutes | sorting_algorithms/sort1.cpp:39-45 | Shifting the run right and dropping the saved key into the gap leaves a permutation of the array. |
| Sort1.RotationPermutes | sorting_algorithms/sort1.cpp:39-45 | Moving one element left over a run, which shifts one slot right, keeps the multiset of the sequence. |
| Sort1.InsertionStepSorts | sorting_algorithms/sort1.cpp:39-45 | Shifting exactly the elements greater than the key and placing the key in the gap extends the sorted prefix by one. |
| Sort1.LeftmostMinIndex | sorting_algorithms/sort1.cpp:72-79 | The scan returns an index of a minimum of `a[i..n)`, and the leftmost one: every earlier index in the range holds a strictly larger value. |
| Sort1.SelectionSort | sorting_algorithms/sort1.cpp:65-89 | For any `n <= a.Length`, `a[0..n)` becomes a sorted permutation of itself and the rest is unchanged; `n <= 1` changes nothing. The loop keeps `a[0..i)` sorted with every element of it at most every element of `a[i..n)`. |
| Sort1.SelectInto | sorting_algorithms/sort1.cpp:72-86 | One outer iteration, with the swap guarded by a value comparison. It returns the index `minIdx` of the leftmost minimum of the old `a[i..n)`. The new array is exactly the old one with `a[i]` and `a[minIdx]` exchanged. The sorted, dominated prefix grows from `i` to `i + 1`, and the array stays a permutation. |
| Sort1.SwapIsUpdate | sorting_algorithms/sort1.cpp:82-86 | An exchange of the entries at two positions is the old array updated at those positions with each other's values. |
| Sort1.SwapPermutes | sorting_algorithms/sort1.cpp:82-86 | Exchanging two entries (or skipping an exchange of equal values) keeps the multiset and changes nothing outside the two positions. |
| Sort1.SelectionStepSorts | sorting_algorithms/sort1.cpp:75-86 | Moving the minimum of `a[i..n)` to position `i` extends the sorted prefix, whose elements are at most every element to its right. |
| Sort1.Merge | sorting_algorithms/sort1.cpp:105-133 | For `p <= q + 1 <= r + 1` inside the array and every element of `a[p..r]` below `INT_MAX`, `a[p..r]` becomes exactly `Merged` of the two old halves, a permutation of the old range, sorted when both halves were sorted; nothing outside `[p, r]` changes. |
| Sort1.MergeBack | sorting_algorithms/sort1.cpp:123-132 | The merge loop: with the two buffers holding the runs followed by `INT_MAX`, and every run element below it, `a[p..r]` receives the cursor merge of the runs index by index, and nothing outside `[p, r]` is written. The loop keeps `i <= n1` and `j <= n2`, so it never reads past a sentinel. |
| Sort1.CopyWithSentinel | sorting_algorithms/sort1.cpp:111-120 | A fresh buffer of `n + 1` slots holding `a[lo..lo+n)` followed by `INT_MAX`. |
| Sort1.SentinelChoice | sorting_algorithms/sort1.cpp:126 | With both buffers ending in `INT_MAX` and all real elements below it, the comparison `L[i] <= R[j]` is true exactly when the merge rule takes the next element from the left run. |
| Sort1.MergeWritten | sorting_algorithms/sort1.cpp:124-132 | Once the loop has written the cursor merge into `a[p..r]`, the range equals `Merged` of the halves, is a permutation of the old range, is sorted when the halves were, and nothing outside it changed. |
| Sort1.MergeSort | sorting_algorithms/sort1.cpp:149-166 | For `p < r` inside the array, with every element of the range below `INT_MAX`, `a[p..r]` becomes a sorted permutation of itself and nothing outside changes. `p >= r` changes nothing. The recursion terminates because `p <= (p + r) / 2 < r`. |
| Sort1.Partition | sorting_algorithms/sort1.cpp:182-211 | For `l < r`, returns `j` with `l <= j < r`. Every element of `a[l..j]` is at most the old `a[l]`, and every element of `a[j+1..r]` is at least it. The range is a permutation of itself, and nothing outside `[l, r]` changes. Both cursors stay inside `[l, r]`, and each `do...while` scan is proved to stop. |
| Sort1.QuickSort | sorting_algorithms/sort1.cpp:227-241 | For `l < r` inside the array, `a[l..r]` becomes a sorted permutation of itself and nothing outside changes. `l >= r` changes nothing. The recursion terminates because the partition index satisfies `l <= q < r`. |
| SortSpec.Merged | sorting_algorithms/sort1.cpp:124-132 | The left-biased merge has the combined length of its two runs and exactly their combined multiset. |
| SortSpec.MergedFrom | sorting_algorithms/sort1.cpp:123-132 | The merge at cursors `i` and `j` has length `|xs| - i + |ys| - j`, the number of loop iterations left. |
| SortSpec.MergedFromIsMerged | sorting_algorithms/sort1.cpp:123-132 | The cursor merge from `(i, j)` equals `Merged` of the suffixes `xs[i..]` and `ys[j..]`, for every `i` and `j`. |
| SortSpec.MergeAdvance | sorting_algorithms/sort1.cpp:126-131 | One loop iteration writes the head the merge rule picks, and what remains is the merge from the advanced cursor. |
| SortSpec.MergedHalvesPermutes | sorting_algorithms/sort1.cpp:105-132 | Merging the two halves of `s[p..r]` yields a permutation of `s[p..r]`. |
| SortSpec.MergedSorted | sorting_algorithms/sort1.cpp:124-132 | Merging two sorted runs gives a sorted run. |
| SortSpec.LeftSourcedIsFromLeft | sorting_algorithms/sort1.cpp:126-127 | A merged position marked as taken from the left run holds an element of the left run. |
| SortSpec.MergedKeepsLeftBeforeRightOnTies | sorting_algorithms/sort1.cpp:126-131 | Ties go left (`<=`). Among equal values of two sorted runs, once one is taken from the right run, no later equal value comes from the left run. So equal elements keep their left/right order. |
| SortSpec.SameOutsideTrans | sorting_algorithms/sort1.cpp:71-87 | Changes confined to a sub-range, made after changes confined to a range that contains it, stay confined to the outer range. Used for selection sort's outer loop. |
| SortSpec.RangePermutation | sorting_algorithms/sort1.cpp:29-241 | A permutation of the whole array that leaves everything outside `[lo, hi]` alone is a permutation of `[lo, hi]`. |
| SortSpec.RangeBelowHalves | sorting_algorithms/sort1.cpp:105-120 | A bound `b` on `a[p..r]` means both halves given to `merge` have entries of at most `b - 1`. |
| SortSpec.SortsRangeKeepsBelow | sorting_algorithms/sort1.cpp:158-161 | Sorting a sub-range keeps an upper bound on the enclosing range, so the below-`INT_MAX` requirement survives each recursive call of merge sort. |
| SortSpec.MergeSortHalves | sorting_algorithms/sort1.cpp:158-161 | After both recursive calls, `a[p..r]` is a permutation of the old range with both halves sorted and nothing outside changed. |
| SortSpec.MergeSortStep | sorting_algorithms/sort1.cpp:158-164 | Sorting the halves and then merging into a sorted permutation sorts the range. |
| SortSpec.QuickSortStep | sorting_algorithms/sort1.cpp:233-239 | Partitioning around a pivot and then sorting `[l, q]` and `[q + 1, r]` sorts `[l, r]`. |
| SortSpec.SortedPermutationsEqual | sorting_algorithms/sort1.cpp:29-241 | Two sorted sequences with the same multiset are equal, so a sorted permutation is unique. |
| SortSpec.SortsRangeDeterministic | sorting_algorithms/sort1.cpp:29-241 | Any two results of sorting the same range of the same array are equal. So the four sorts agree on every input all four accept. |
| SortSpec.SortingSortedRangeIsIdentity | sorting_algorithms/sort1.cpp:29-241 | Sorting an already sorted range changes nothing. |
| SortSpec.ExampleScenario | sorting_algorithms/sort1.cpp:29-241 | Sorting `[5, 3, 8, 3, 1]` as a whole can only give `[1, 3, 3, 5, 8]`. |

## Left out

- `printArray`, `copyArray`, `testAlgorithm` and `main` are harness code and are not modelled. That covers:
  - console output;
  - copying each test input;
  - `high_resolution_clock` timing;
  - the dispatch on the algorithm name;
  - random inputs from `srand` and `rand`.
- Running-time claims (quadratic, `n log n`) are not modelled. They are not functional behaviour.
- Return value: `insertion_sort` and `selection_sort` return the pointer they were given. The Dafny methods return nothing, because the array they modify is the caller's.
- Merge: the variable-length stack arrays `L` and `R` become fresh heap arrays of the same lengths. Their sentinel slots hold the value of `INT_MAX`.
- Merge, MergeSort: both require every element of the range to be below `INT_MAX` (2^31 - 1). When both halves are sorted, as `merge_sort` guarantees, the overrun needs two or more `INT_MAX` values in the right half of a `merge`. Once the left run is used up, the comparison at line 126 takes the left sentinel, because it equals `R[j]`. The next iteration then reads `L[n1 + 1]`, past the buffer. `merge_sort` on `[1, 2, INT_MAX, INT_MAX]` reaches this in `merge(a, 0, 1, 3)`. One `INT_MAX` per half, as in `[INT_MAX, INT_MAX]`, stays in bounds. The model does not describe the out-of-bounds behaviour, and it rejects every range that holds an `INT_MAX`, including such harmless ones. `merge` itself accepts unsorted halves, and on those one `INT_MAX` in the right half that is not its last element is enough. For example, `L = [1, S]` and `R = [INT_MAX, 5, S]`, where `S` is the sentinel, read `L[2]`.
- InsertionSort, MergeSort: stability of the whole sort is not stated. The elements are plain `int`s, so equal elements cannot be told apart, and `SortsRangeDeterministic` already fixes the whole output. Two per-step facts are stated instead: the tie rule of one merge (`MergedKeepsLeftBeforeRightOnTies`) and the strict `>` of the shifting loop (`ShiftLarger` moves only elements greater than the key). No statement follows elements back to the positions they came from.
- MergeSort: the midpoint is computed on unbounded integers. The C++ `p + r` can overflow for ranges near `INT_MAX`; indices of such size do not fit the arrays the harness builds.
- Integer width: elements are unbounded Dafny `int`s. Only the `INT_MAX` sentinel is a 32-bit constant. No routine performs arithmetic on element values, so 32-bit wrap-around plays no role.
- Partition: the contract is stated for `l < r`, the only way `quick_sort` calls it.
