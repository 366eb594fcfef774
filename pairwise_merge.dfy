/** The two-cursor merge `merge_two`, which appears twice in the repository with the
    same body (lists_merge_optional.py and sort_benchmark.py). `Merge` is its
    specification as a function, `MergeTwo` the cursor loop proved equal to it. */
module PairwiseMerge {
  import opened SortedSeqs

  /** The merge as a function. Its branches follow the loop: while both lists have
      elements, the smaller head is taken, the left one on ties (`<=`); once either
      list is used up, what remains of the left list and then of the right list is
      appended. */
  function Merge(left: seq<int>, right: seq<int>): (m: seq<int>)
    ensures |m| == |left| + |right|
    decreases |left| + |right|
  {
    if left == [] || right == [] then left + right
    else if left[0] <= right[0] then [left[0]] + Merge(left[1..], right)
    else [right[0]] + Merge(left, right[1..])
  }

  /** The loop of `merge_two`: cursors `i` and `j` advance over `left` and `right`
      and the smaller element is appended to `result`; the unconsumed tails are
      appended at the end. */
  method MergeTwo(left: seq<int>, right: seq<int>) returns (result: seq<int>)
    ensures result == Merge(left, right)
    ensures |result| == |left| + |right|
    ensures multiset(result) == multiset(left) + multiset(right)
    ensures Sorted(left) && Sorted(right) ==> Sorted(result)
  {
    result := [];
    var i, j := 0, 0;
    while i < |left| && j < |right|
      invariant 0 <= i <= |left| && 0 <= j <= |right|
      invariant result + Merge(left[i..], right[j..]) == Merge(left, right)
      decreases |left| - i + |right| - j
    {
      MergeFrom(left, right, i, j);
      if left[i] <= right[j] {
        result := result + [left[i]];
        i := i + 1;
      } else {
        result := result + [right[j]];
        j := j + 1;
      }
    }
    assert Merge(left[i..], right[j..]) == left[i..] + right[j..];
    result := result + left[i..];
    result := result + right[j..];
    assert result == Merge(left, right);
    MergeFacts(left, right);
  }

  /** Both guarantees of the merge, for the loop above. */
  lemma MergeFacts(left: seq<int>, right: seq<int>)
    ensures multiset(Merge(left, right)) == multiset(left) + multiset(right)
    ensures Sorted(left) && Sorted(right) ==> Sorted(Merge(left, right))
  {
    MergePermutation(left, right);
    if Sorted(left) && Sorted(right) {
      MergeSorted(left, right);
    }
  }

  /** The merge of the unconsumed parts, one comparison further on. */
  lemma MergeFrom(left: seq<int>, right: seq<int>, i: nat, j: nat)
    requires i < |left| && j < |right|
    ensures left[i] <= right[j] ==> Merge(left[i..], right[j..]) == [left[i]] + Merge(left[i + 1..], right[j..])
    ensures right[j] < left[i] ==> Merge(left[i..], right[j..]) == [right[j]] + Merge(left[i..], right[j + 1..])
  {
    assert left[i..][1..] == left[i + 1..];
    assert right[j..][1..] == right[j + 1..];
  }

  /** The result holds exactly the elements of both inputs, with multiplicity. */
  lemma {:induction false} MergePermutation(left: seq<int>, right: seq<int>)
    ensures multiset(Merge(left, right)) == multiset(left) + multiset(right)
    decreases |left| + |right|
  {
    if left == [] || right == [] {
    } else if left[0] <= right[0] {
      assert left == [left[0]] + left[1..];
      MergePermutation(left[1..], right);
    } else {
      assert right == [right[0]] + right[1..];
      MergePermutation(left, right[1..]);
    }
  }

  /** Two lists sorted non-descending merge into one sorted non-descending. */
  lemma {:induction false} MergeSorted(left: seq<int>, right: seq<int>)
    requires Sorted(left) && Sorted(right)
    ensures Sorted(Merge(left, right))
    decreases |left| + |right|
  {
    if left == [] || right == [] {
    } else if left[0] <= right[0] {
      var rest := Merge(left[1..], right);
      MergeSorted(left[1..], right);
      MergePermutation(left[1..], right);
      forall e | e in multiset(rest) ensures left[0] <= e {
        if e in multiset(left[1..]) {
          var k :| 0 <= k < |left[1..]| && left[1..][k] == e;
          assert left[k + 1] == e;
        } else {
          var k :| 0 <= k < |right| && right[k] == e;
        }
      }
      SortedCons(left[0], rest);
    } else {
      var rest := Merge(left, right[1..]);
      MergeSorted(left, right[1..]);
      MergePermutation(left, right[1..]);
      forall e | e in multiset(rest) ensures right[0] <= e {
        if e in multiset(right[1..]) {
          var k :| 0 <= k < |right[1..]| && right[1..][k] == e;
          assert right[k + 1] == e;
        } else {
          var k :| 0 <= k < |left| && left[k] == e;
        }
      }
      SortedCons(right[0], rest);
    }
  }

  /** An empty operand skips the loop: only the two `extend` calls run, so the
      other operand comes back as it was. */
  lemma MergeEmptyIdentities(s: seq<int>)
    ensures Merge(s, []) == s
    ensures Merge([], s) == s
  {
  }

  // ---------------------------------------------------------------------------
  // Where each element comes from: the tie-break and the order within each input.

  /** For each element of `Merge(left, right)`, whether it was taken from `left`
      (true) or from `right` (false), following the same comparisons. */
  ghost function Origins(left: seq<int>, right: seq<int>): (o: seq<bool>)
    ensures |o| == |left| + |right|
    decreases |left| + |right|
  {
    if left == [] || right == [] then seq(|left|, _ => true) + seq(|right|, _ => false)
    else if left[0] <= right[0] then [true] + Origins(left[1..], right)
    else [false] + Origins(left, right[1..])
  }

  /** The elements of `s` at the positions where `o` holds `side`, in order. */
  ghost function Pick(s: seq<int>, o: seq<bool>, side: bool): (p: seq<int>)
    requires |s| == |o|
    ensures |p| <= |s|
  {
    if s == [] then [] else (if o[0] == side then [s[0]] else []) + Pick(s[1..], o[1..], side)
  }

  lemma {:induction false} PickUniform(s: seq<int>, o: seq<bool>, side: bool)
    requires |s| == |o|
    requires forall k :: 0 <= k < |o| ==> o[k] == side
    ensures Pick(s, o, side) == s
    ensures Pick(s, o, !side) == []
  {
    if s != [] {
      PickUniform(s[1..], o[1..], side);
    }
  }

  lemma {:induction false} PickAppend(s: seq<int>, o: seq<bool>, t: seq<int>, u: seq<bool>, side: bool)
    requires |s| == |o| && |t| == |u|
    ensures Pick(s + t, o + u, side) == Pick(s, o, side) + Pick(t, u, side)
  {
    if s != [] {
      assert (s + t)[1..] == s[1..] + t;
      assert (o + u)[1..] == o[1..] + u;
      PickAppend(s[1..], o[1..], t, u, side);
    } else {
      assert s + t == t && o + u == u;
    }
  }

  /** An element at a position marked `side` is among the picked elements of that side. */
  lemma {:induction false} PickContains(s: seq<int>, o: seq<bool>, side: bool, k: nat)
    requires |s| == |o| && k < |s| && o[k] == side
    ensures s[k] in Pick(s, o, side)
  {
    if k > 0 {
      PickContains(s[1..], o[1..], side, k - 1);
    }
  }

  /** Picking the left-origin elements of the merge gives back `left`, and the
      right-origin ones give back `right`: the merge is an interleaving of its
      inputs that keeps the relative order of the elements within each input. */
  lemma {:induction false} MergeInterleaves(left: seq<int>, right: seq<int>)
    ensures Pick(Merge(left, right), Origins(left, right), true) == left
    ensures Pick(Merge(left, right), Origins(left, right), false) == right
    decreases |left| + |right|
  {
    var m, o := Merge(left, right), Origins(left, right);
    if left == [] || right == [] {
      var ol, or := seq(|left|, _ => true), seq(|right|, _ => false);
      PickAppend(left, ol, right, or, true);
      PickAppend(left, ol, right, or, false);
      PickUniform(left, ol, true);
      PickUniform(right, or, false);
    } else if left[0] <= right[0] {
      MergeInterleaves(left[1..], right);
      assert m[1..] == Merge(left[1..], right) && o[1..] == Origins(left[1..], right);
      assert left == [left[0]] + left[1..];
    } else {
      MergeInterleaves(left, right[1..]);
      assert m[1..] == Merge(left, right[1..]) && o[1..] == Origins(left, right[1..]);
      assert right == [right[0]] + right[1..];
    }
  }

  /** No element marked as taken from the right operand is followed by a
      left-operand element that is less than or equal to it. */
  ghost predicate LeftFirstOnTies(m: seq<int>, o: seq<bool>)
    requires |m| == |o|
  {
    forall p, q :: 0 <= p < q < |m| && !o[p] && o[q] ==> m[p] < m[q]
  }

  /** An element marked as taken from the left operand is an element of it. */
  lemma LeftOriginFromLeft(left: seq<int>, right: seq<int>, q: nat)
    requires q < |left| + |right| && Origins(left, right)[q]
    ensures Merge(left, right)[q] in left
  {
    PickContains(Merge(left, right), Origins(left, right), true, q);
    MergeInterleaves(left, right);
  }

  /** Ties go to the left operand: with sorted inputs, an element taken from `right`
      is strictly smaller than every element taken from `left` after it, so all
      equal elements from `left` are emitted before those from `right`. */
  lemma {:induction false} MergeTiesFavourLeft(left: seq<int>, right: seq<int>)
    requires Sorted(left) && Sorted(right)
    ensures LeftFirstOnTies(Merge(left, right), Origins(left, right))
    decreases |left| + |right|
  {
    var m, o := Merge(left, right), Origins(left, right);
    if left == [] || right == [] {
    } else if left[0] <= right[0] {
      MergeTiesFavourLeft(left[1..], right);
      var m', o' := Merge(left[1..], right), Origins(left[1..], right);
      assert m == [left[0]] + m' && o == [true] + o';
      forall p, q | 0 <= p < q < |m| && !o[p] && o[q] ensures m[p] < m[q] {
        assert p > 0;
        assert m[p] == m'[p - 1] && o[p] == o'[p - 1];
        assert m[q] == m'[q - 1] && o[q] == o'[q - 1];
      }
    } else {
      MergeTiesFavourLeft(left, right[1..]);
      var m', o' := Merge(left, right[1..]), Origins(left, right[1..]);
      assert m == [right[0]] + m' && o == [false] + o';
      forall p, q | 0 <= p < q < |m| && !o[p] && o[q] ensures m[p] < m[q] {
        assert m[q] == m'[q - 1] && o[q] == o'[q - 1];
        if p == 0 {
          LeftOriginFromLeft(left, right[1..], q - 1);
          SortedHeadLeast(left, m[q]);
        } else {
          assert m[p] == m'[p - 1] && o[p] == o'[p - 1];
        }
      }
    }
  }
}
