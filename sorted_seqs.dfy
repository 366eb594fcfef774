/** Vocabulary shared by the merge and sort models: what it means for a list of
    integers to be sorted non-descending, and why a sorted permutation of a list
    is unique. */
module SortedSeqs {

  /** Every element is at most every later element (non-descending order). */
  predicate Sorted(s: seq<int>) {
    forall p, q :: 0 <= p < q < |s| ==> s[p] <= s[q]
  }

  /** Prepending an element that is at most every element of a sorted list keeps it sorted. */
  lemma SortedCons(x: int, s: seq<int>)
    requires Sorted(s)
    requires forall e :: e in multiset(s) ==> x <= e
    ensures Sorted([x] + s)
  {
    forall p, q | 0 <= p < q < |[x] + s|
      ensures ([x] + s)[p] <= ([x] + s)[q]
    {
      if p == 0 {
        assert ([x] + s)[q] == s[q - 1];
        assert s[q - 1] in multiset(s);
      }
    }
  }

  /** Dropping the first element of a sorted list leaves it sorted. */
  lemma SortedTail(s: seq<int>)
    requires Sorted(s) && s != []
    ensures Sorted(s[1..])
  {
    forall p, q | 0 <= p < q < |s| - 1 ensures s[1..][p] <= s[1..][q] {
      assert s[1..][p] == s[p + 1] && s[1..][q] == s[q + 1];
    }
  }

  /** The first element of a sorted list is its least element. */
  lemma SortedHeadLeast(s: seq<int>, e: int)
    requires Sorted(s) && e in s
    ensures s[0] <= e
  {
  }

  /** Two sorted lists with the same elements (counted with multiplicity) are equal:
      a sort's result is determined by its input alone. */
  lemma {:induction false} SortedPermutationUnique(x: seq<int>, y: seq<int>)
    requires Sorted(x) && Sorted(y)
    requires multiset(x) == multiset(y)
    ensures x == y
  {
    if x == [] {
      assert |y| == |multiset(y)| == 0;
    } else {
      assert |y| == |multiset(y)| == |x|;
      assert x[0] in multiset(y) && y[0] in multiset(x);
      SortedHeadLeast(x, y[0]);
      SortedHeadLeast(y, x[0]);
      assert x[0] == y[0];
      assert x == [x[0]] + x[1..] && y == [y[0]] + y[1..];
      assert multiset(x[1..]) == multiset(x) - multiset{x[0]};
      assert multiset(y[1..]) == multiset(y) - multiset{y[0]};
      SortedTail(x);
      SortedTail(y);
      SortedPermutationUnique(x[1..], y[1..]);
    }
  }
}
