# Verified model of a k-way merger and two sorting primitives

This project is a Dafny model of two small Python scripts that work on in-memory
lists of integers.

- `lists_merge_optional.py` merges k sorted lists into one. `merge_two` is a
  two-cursor merge: it takes the smaller head each time and the left one on ties.
  `merge_k_lists` makes a working copy of the collection. Each round it merges
  the lists at positions (0, 1), (2, 3), ... and carries an odd last list over
  unmerged. It stops when one list is left.
- `sort_benchmark.py` holds the two sorts it times. `insertion_sort` sorts a copy
  of its argument in place by shifting larger elements right. `merge_sort` is a
  recursive top-down merge sort. Its `merge_two` has the same body as the one in
  `lists_merge_optional.py`; only the type annotations and a comment differ.

The Dafny modules:

- `SortedSeqs` (`sorted_seqs.dfy`) holds the `Sorted` predicate (non-descending order).
  It also proves that a sorted permutation of a list is unique.
- `PairwiseMerge` (`pairwise_merge.dfy`) models `merge_two` once for both files.
  `Merge` is the merge as a function. `MergeTwo` is the cursor loop, proved equal
  to `Merge`. The lemmas cover the permutation, sortedness, the empty-operand
  identities, order within each input, and the left-first tie-break. The ghost
  function `Origins` records which operand each output element came from.
- `KWayMerge` (`k_way_merge.dfy`) models `merge_k_lists`. `Pairs` is one round.
  `Reduce` runs rounds until one list is left. `MergeK` is the whole operation.
  `MergeKLists` (the driver) and `MergeRound` (the inner `for` loop) are the
  imperative loops, proved equal to these functions. A ghost counter in
  `MergeKLists` counts rounds, and the number of rounds is proved to be ⌈log₂ k⌉.
- `SortBenchmark` (`sort_benchmark.dfy`) models the sorts. `MergeSort` is a
  recursive function. `InsertionSort` copies its input into a fresh array and
  sorts it in place. One pass of its outer loop is the method `InsertKey`, which
  holds the shifting loop. Both sorts return the sorted permutation of the input,
  so their results are equal.

Python lists are modelled as `seq<int>` values. The caller's list, or list of
lists, therefore cannot be changed by any operation. The source gets the same
effect by copying (`arr.copy()`, `lists[:]`) and by only reading.

## Model

| member | source | states |
|---|---|---|
| `PairwiseMerge.Merge` | sort_benchmark.py:23-38 | the merge of two lists has length `len(left) + len(right)` |
| `PairwiseMerge.MergeTwo` | lists_merge_optional.py:4-20 | the cursor loop with the final `extend` calls returns exactly `Merge(left, right)`. It therefore has the summed length and is a permutation of `left + right`. It is sorted whenever both inputs are sorted |
| `PairwiseMerge.MergePermutation` | lists_merge_optional.py:9-19 | the merged list holds exactly the elements of both inputs, counted with multiplicity |
| `PairwiseMerge.MergeSorted` | lists_merge_optional.py:5-19 | two lists sorted non-descending merge into one sorted non-descending |
| `PairwiseMerge.MergeEmptyIdentities` | lists_merge_optional.py:9-19 | `merge_two(A, [])` is `A` and `merge_two([], B)` is `B` |
| `PairwiseMerge.MergeInterleaves` | lists_merge_optional.py:9-19 | taking the left-origin elements of the result, in order, gives back `left`, and the right-origin elements give back `right`. The merge is an interleaving that keeps the order within each input |
| `PairwiseMerge.MergeTiesFavourLeft` | lists_merge_optional.py:10-15 | with sorted inputs, an element taken from `right` is strictly smaller than every `left` element emitted after it. On equal values, the `left` elements come first (`<=` on line 10) |
| `KWayMerge.MergeKLists` | lists_merge_optional.py:23-46 | returns `MergeK(lists)`. The result has the summed length of all inputs and is a permutation of their concatenation. It is sorted when every input is sorted. The ghost round count equals `Rounds(k)` |
| `KWayMerge.MergeRound` | lists_merge_optional.py:35-44 | one pass of the `for` loop builds `Pairs(current)`, which has ⌈len(current)/2⌉ lists |
| `KWayMerge.Pairs` | lists_merge_optional.py:37-42 | a round yields ⌈k/2⌉ lists, so the working list shrinks while more than one list remains |
| `KWayMerge.PairsAt` | lists_merge_optional.py:37-42 | list `t` of the next round is `merge_two(current[2t], current[2t+1])`. When the count is odd, the last list is carried over unchanged |
| `KWayMerge.PairsPermutation` | lists_merge_optional.py:37-44 | a round keeps every element of the working collection, with multiplicity |
| `KWayMerge.PairsSorted` | lists_merge_optional.py:37-44 | a round keeps every list of the working collection sorted |
| `KWayMerge.Reduce` | lists_merge_optional.py:34-46 | rounds run while more than one list remains and the last list is returned; the result has as many elements as the whole working collection (its multiset and sortedness are in `ReduceCorrect`) |
| `KWayMerge.MergeK` | lists_merge_optional.py:23-46 | the whole operation: no lists give `[]`, otherwise the rounds run on a copy of the collection; the result has the summed length of the inputs (multiset and sortedness are in `MergeKCorrect`) |
| `KWayMerge.Rounds` | lists_merge_optional.py:34-44 | how many times the `while` loop runs on k lists: none exactly when k ≤ 1 (its value ⌈log₂ k⌉ is in `RoundsIsCeilLog2`) |
| `KWayMerge.ReduceCorrect` | lists_merge_optional.py:34-46 | the rounds end in one list that is a permutation of all elements. It is sorted when all lists were sorted |
| `KWayMerge.MergeKCorrect` | lists_merge_optional.py:23-46 | `merge_k_lists` returns a permutation of the concatenated inputs with their summed length. It is sorted when every input is sorted |
| `KWayMerge.MergeKEdgeCases` | lists_merge_optional.py:28-46 | no lists give `[]`. A single list comes back unchanged, because the loop does not run and `current[0]` is returned |
| `KWayMerge.RoundsIsCeilLog2` | lists_merge_optional.py:33-44 | the number of rounds on k ≥ 1 lists is ⌈log₂ k⌉. It is the least r with 2^r ≥ k |
| `SortBenchmark.MergeSort` | sort_benchmark.py:41-48 | merge sort returns a sorted permutation of its input. The recursion is on the two strictly shorter halves split at `len // 2` |
| `SortBenchmark.SortedPermutationIsMergeSort` | sort_benchmark.py:41-48 | any sorted permutation of a list equals its merge sort, so every correct sort of the same input agrees with `merge_sort` |
| `SortBenchmark.MergeSortOfSorted` | sort_benchmark.py:43-44 | an already sorted list, including every list of length at most one, is its own merge sort |
| `SortBenchmark.InsertionSort` | sort_benchmark.py:8-18 | returns a sorted permutation of its input, equal to `MergeSort` of it. The outer loop keeps the prefix `a[..i]` sorted, the suffix `a[i..]` equal to the input's, and the whole array a permutation of the input, so the prefix is a permutation of the input's prefix |
| `SortBenchmark.InsertKey` | sort_benchmark.py:12-17 | one outer pass: after inserting `key`, the prefix of length `i + 1` is sorted. The array is a permutation of its previous contents, and elements past `i` are untouched. Its loop keeps every shifted element strictly greater than `key` |
| `SortBenchmark.InsertStep` | sort_benchmark.py:14-17 | shifting the larger elements right by one and writing `key` into the gap sorts the prefix of length `i + 1` and loses no element |
| `SortBenchmark.InsertStepSorted` | sort_benchmark.py:14-17 | the key is no smaller than the element left of the gap and smaller than every element it passed, so the extended prefix is sorted |
| `SortBenchmark.InsertStepPermutation` | sort_benchmark.py:15-17 | moving the key down and shifting the elements it passed keeps the array's multiset of elements |

## Left out

- `benchmark()` and `main()` (timing with `timeit`, floating-point averages, printed tables): they are I/O and wall-clock measurement with no functional contract.
- The data generators `generate_random`, `generate_sorted` and `generate_reversed`: they depend on the `random` module or only feed the benchmark.
- Python's built-in `sorted` (Timsort): it is a library call whose code is not part of this model.
- The `__main__` blocks of both files: they only print.
- Asymptotic cost (O(n²), O(n log n), O(N log k)): only the number of rounds of `merge_k_lists` is modelled, as a ghost counter.
- Object identity: `merge_sort` returns the same list object for length at most one, and `merge_k_lists` returns the same inner list object for a single input. Lists are values here, so the model keeps equality but not identity.
- `InsertionSort`: stability is stated only as the inner-loop fact that every shifted element is strictly greater than `key`. On plain integers, equal elements cannot be told apart, so there is no observable stability property to prove.
- Element type: the source is written for any comparable Python values (`List[int]` in `lists_merge_optional.py`, untyped in `sort_benchmark.py`). The model fixes the elements to unbounded integers.
