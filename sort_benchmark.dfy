/** The sorting primitives of sort_benchmark.py: an insertion sort that shifts
    elements of a working copy in place, and a recursive top-down merge sort built
    on the same two-cursor merge as the k-way merger. */
module SortBenchmark {
  import opened SortedSeqs
  import opened PairwiseMerge

  /** `merge_sort`: lists of length at most one come back as they are; longer ones
      are split at `len // 2`, both halves sorted recursively and merged. */
  function MergeSort(s: seq<int>): (r: seq<int>)
    ensures Sorted(r)
    ensures multiset(r) == multiset(s)
    decreases |s|
  {
    if |s| <= 1 then s
    else
      var mid := |s| / 2;
      var left, right := MergeSort(s[..mid]), MergeSort(s[mid..]);
      MergeSorted(left, right);
      MergePermutation(left, right);
      SplitMultiset(s, mid);
      Merge(left, right)
  }

  lemma SplitMultiset(s: seq<int>, mid: nat)
    requires mid <= |s|
    ensures multiset(s) == multiset(s[..mid]) + multiset(s[mid..])
  {
    assert s == s[..mid] + s[mid..];
  }

  /** Every sorted permutation of a list is its merge sort: any two correct sorts
      of the same input agree. */
  lemma SortedPermutationIsMergeSort(r: seq<int>, s: seq<int>)
    requires Sorted(r) && multiset(r) == multiset(s)
    ensures r == MergeSort(s)
  {
    SortedPermutationUnique(r, MergeSort(s));
  }

  /** A list that is already sorted is its own merge sort. */
  lemma MergeSortOfSorted(s: seq<int>)
    requires Sorted(s)
    ensures MergeSort(s) == s
  {
    SortedPermutationIsMergeSort(s, s);
  }

  /** `insertion_sort`: the argument is copied into a fresh array, which is sorted
      in place; the caller's list is a value and cannot change. After the pass for
      index `i`, the first `i + 1` elements are sorted, the rest still hold the
      input, and so the sorted prefix is a permutation of the input's prefix. The result equals the merge sort of the same input. */
  method InsertionSort(s: seq<int>) returns (r: seq<int>)
    ensures Sorted(r)
    ensures multiset(r) == multiset(s)
    ensures r == MergeSort(s)
  {
    var a := new int[|s|](k requires 0 <= k < |s| => s[k]);
    assert a[..] == s;
    var i := 1;
    while i < a.Length
      invariant 1 <= i && (a.Length == 0 || i <= a.Length)
      invariant a.Length > 0 ==> Sorted(a[..i])
      invariant multiset(a[..]) == multiset(s)
      invariant a.Length > 0 ==> a[i..] == s[i..]
    {
      InsertKey(a, i);
      i := i + 1;
    }
    r := a[..];
    SortedPermutationIsMergeSort(r, s);
  }

  /** One pass of the outer loop: `key = a[i]` is inserted into the sorted prefix
      `a[..i]` by shifting each larger element one place right (`j` walks down from
      `i - 1`). The comparison is strict, so the key stops after any equal element
      and equal elements keep their order. Elements from `i + 1` on are untouched. */
  method InsertKey(a: array<int>, i: nat)
    requires 0 < i < a.Length
    requires Sorted(a[..i])
    modifies a
    ensures Sorted(a[..i + 1])
    ensures multiset(a[..]) == multiset(old(a[..]))
    ensures a[i + 1..] == old(a[i + 1..])
  {
    ghost var before := a[..];
    var key := a[i];
    var j := i - 1;
    while j >= 0 && a[j] > key
      invariant -1 <= j < i
      invariant forall k :: 0 <= k <= j ==> a[k] == before[k]
      invariant forall k :: j + 1 < k <= i ==> a[k] == before[k - 1]
      invariant forall k :: i < k < a.Length ==> a[k] == before[k]
      invariant forall k :: j + 1 < k <= i ==> a[k] > key
      decreases j
    {
      a[j + 1] := a[j];
      j := j - 1;
    }
    a[j + 1] := key;
    InsertStep(before, a[..], i, j + 1);
  }

  /** `after` is `before` with the key `before[i]` moved down to position `pos` and
      the elements it passed shifted one place right; the rest is unchanged. */
  ghost predicate IsInsertStep(before: seq<int>, after: seq<int>, i: nat, pos: nat) {
    && i < |before| == |after| && pos <= i
    && (forall k :: 0 <= k < pos ==> after[k] == before[k])
    && after[pos] == before[i]
    && (forall k :: pos < k <= i ==> after[k] == before[k - 1])
    && (forall k :: i < k < |after| ==> after[k] == before[k])
  }

  /** One insertion step into a sorted prefix, with the key stopping after the first
      element no larger than it: the prefix of length `i + 1` ends sorted, no element
      is lost or duplicated, and the elements past `i` are untouched. */
  lemma InsertStep(before: seq<int>, after: seq<int>, i: nat, pos: nat)
    requires IsInsertStep(before, after, i, pos)
    requires Sorted(before[..i])
    requires pos > 0 ==> before[pos - 1] <= before[i]
    requires forall k :: pos < k <= i ==> after[k] > before[i]
    ensures Sorted(after[..i + 1])
    ensures multiset(after) == multiset(before)
    ensures after[i + 1..] == before[i + 1..]
  {
    InsertStepSorted(before, after, i, pos);
    InsertStepPermutation(before, after, i, pos);
  }

  /** If the prefix of length `i` was sorted, the key is no smaller than the element
      left of `pos` and smaller than those it passed, then the prefix of length
      `i + 1` is sorted. */
  lemma InsertStepSorted(before: seq<int>, after: seq<int>, i: nat, pos: nat)
    requires IsInsertStep(before, after, i, pos)
    requires Sorted(before[..i])
    requires pos > 0 ==> before[pos - 1] <= before[i]
    requires forall k :: pos < k <= i ==> after[k] > before[i]
    ensures Sorted(after[..i + 1])
  {
    forall p, q | 0 <= p < q <= i ensures after[p] <= after[q] {
      if q < pos {
        assert before[..i][p] <= before[..i][q];
      } else if q == pos {
        if p < pos - 1 {
          assert before[..i][p] <= before[..i][pos - 1];
        }
      } else if p < pos {
        assert before[..i][p] <= before[..i][q - 1];
      } else if p > pos {
        assert before[..i][p - 1] <= before[..i][q - 1];
      }
    }
  }

  /** The step loses and duplicates no element: `after` is a permutation of `before`. */
  lemma InsertStepPermutation(before: seq<int>, after: seq<int>, i: nat, pos: nat)
    requires IsInsertStep(before, after, i, pos)
    ensures multiset(after) == multiset(before)
  {
    var front, passed, back := before[..pos], before[pos..i], before[i + 1..];
    assert after[..pos] == front by {
      forall k | 0 <= k < pos ensures after[..pos][k] == front[k] { }
    }
    assert after[pos + 1..i + 1] == passed by {
      forall k | 0 <= k < i - pos ensures after[pos + 1..i + 1][k] == passed[k] {
        assert after[pos + 1 + k] == before[pos + k];
      }
    }
    assert after[i + 1..] == back by {
      forall k | 0 <= k < |back| ensures after[i + 1..][k] == back[k] {
        assert after[i + 1 + k] == before[i + 1 + k];
      }
    }
    assert after == after[..pos] + [after[pos]] + after[pos + 1..i + 1] + after[i + 1..];
    assert before == front + passed + [before[i]] + back;
  }
}
