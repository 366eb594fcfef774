/** `merge_k_lists` (lists_merge_optional.py): merges k sorted lists by rounds of
    pairwise merging. Each round merges the lists at positions (0, 1), (2, 3), ...
    and carries an odd last list over unmerged, until one list remains. */
module KWayMerge {
  import opened SortedSeqs
  import opened PairwiseMerge

  /** All lists of a collection, concatenated in order. Its length is the sum of
      the lists' lengths. */
  function Flatten(lists: seq<seq<int>>): seq<int> {
    if lists == [] then [] else lists[0] + Flatten(lists[1..])
  }

  predicate AllSorted(lists: seq<seq<int>>) {
    forall k :: 0 <= k < |lists| ==> Sorted(lists[k])
  }

  /** One round: adjacent pairs merged, an odd trailing list carried over. The
      next working collection has ceil(k / 2) lists. */
  function Pairs(current: seq<seq<int>>): (next: seq<seq<int>>)
    ensures |next| == (|current| + 1) / 2
  {
    if |current| <= 1 then current
    else [Merge(current[0], current[1])] + Pairs(current[2..])
  }

  /** Rounds until a single list remains; that list is the result. It has as many
      elements as the whole working collection. */
  function Reduce(current: seq<seq<int>>): (r: seq<int>)
    requires |current| >= 1
    ensures |r| == |Flatten(current)|
    decreases |current|
  {
    if |current| == 1 then
      assert Flatten(current) == current[0] + Flatten([]);
      current[0]
    else
      PairsPermutation(current);
      assert |Flatten(Pairs(current))| == |multiset(Flatten(Pairs(current)))|;
      Reduce(Pairs(current))
  }

  /** The whole of `merge_k_lists`: no lists give the empty list. The result has the
      summed length of the inputs. */
  function MergeK(lists: seq<seq<int>>): (r: seq<int>)
    ensures |r| == |Flatten(lists)|
  {
    if lists == [] then [] else Reduce(lists)
  }

  /** Number of rounds the driver runs on k lists: none exactly when there is at
      most one list. */
  function Rounds(k: nat): (r: nat)
    ensures r == 0 <==> k <= 1
  {
    if k <= 1 then 0 else 1 + Rounds((k + 1) / 2)
  }

  function Pow2(n: nat): (p: nat)
    ensures p >= 1
  {
    if n == 0 then 1 else 2 * Pow2(n - 1)
  }

  /** The driver: `current` is a working copy of the caller's collection, rebuilt
      as `nextLevel` every round. The ghost `rounds` counts the rounds run. */
  method MergeKLists(lists: seq<seq<int>>) returns (merged: seq<int>, ghost rounds: nat)
    ensures merged == MergeK(lists)
    ensures rounds == Rounds(|lists|)
    ensures |merged| == |Flatten(lists)|
    ensures multiset(merged) == multiset(Flatten(lists))
    ensures AllSorted(lists) ==> Sorted(merged)
  {
    rounds := 0;
    if lists == [] {
      merged := [];
      return;
    }
    var current := lists;
    while |current| > 1
      invariant |current| >= 1
      invariant Reduce(current) == Reduce(lists)
      invariant rounds + Rounds(|current|) == Rounds(|lists|)
      decreases |current|
    {
      var nextLevel := MergeRound(current);
      current := nextLevel;
      rounds := rounds + 1;
    }
    merged := current[0];
    MergeKCorrect(lists);
  }

  /** One round of the driver: `i` steps over the working collection by two,
      merging the pair at (i, i + 1) or carrying the last list when none follows. */
  method MergeRound(current: seq<seq<int>>) returns (nextLevel: seq<seq<int>>)
    ensures nextLevel == Pairs(current)
    ensures |nextLevel| == (|current| + 1) / 2
  {
    nextLevel := [];
    var i := 0;
    while i < |current|
      invariant 0 <= i <= |current| + 1
      invariant i <= |current| ==> nextLevel + Pairs(current[i..]) == Pairs(current)
      invariant i > |current| ==> nextLevel == Pairs(current)
      decreases |current| - i
    {
      PairsFrom(current, i);
      if i + 1 < |current| {
        var merged := MergeTwo(current[i], current[i + 1]);
        nextLevel := nextLevel + [merged];
      } else {
        nextLevel := nextLevel + [current[i]];
      }
      i := i + 2;
    }
  }

  /** The round from position `i` on: a pair is merged, or the last list carried. */
  lemma PairsFrom(current: seq<seq<int>>, i: nat)
    requires i < |current|
    ensures i + 1 < |current| ==>
      Pairs(current[i..]) == [Merge(current[i], current[i + 1])] + Pairs(current[i + 2..])
    ensures i + 1 == |current| ==> Pairs(current[i..]) == [current[i]]
  {
    if i + 1 < |current| {
      assert current[i..][2..] == current[i + 2..];
    } else {
      assert current[i..] == [current[i]];
    }
  }

  /** Round structure: the k-th list of the next round is the merge of lists 2k and
      2k + 1, and when the count is odd the last list is carried over unchanged. */
  lemma {:induction false} PairsAt(current: seq<seq<int>>, k: nat)
    requires k < (|current| + 1) / 2
    ensures 2 * k + 1 < |current| ==> Pairs(current)[k] == Merge(current[2 * k], current[2 * k + 1])
    ensures 2 * k + 1 == |current| ==> Pairs(current)[k] == current[2 * k]
  {
    if |current| > 1 && k > 0 {
      PairsAt(current[2..], k - 1);
    }
  }

  /** A round keeps every element, with multiplicity. */
  lemma {:induction false} PairsPermutation(current: seq<seq<int>>)
    ensures multiset(Flatten(Pairs(current))) == multiset(Flatten(current))
  {
    if |current| > 1 {
      var rest := current[2..];
      PairsPermutation(rest);
      MergePermutation(current[0], current[1]);
      assert current[1..][1..] == rest;
      assert Flatten(current) == current[0] + (current[1] + Flatten(rest));
      assert Pairs(current)[1..] == Pairs(rest);
      assert Flatten(Pairs(current)) == Merge(current[0], current[1]) + Flatten(Pairs(rest));
    }
  }

  /** A round keeps every list sorted. */
  lemma {:induction false} PairsSorted(current: seq<seq<int>>)
    requires AllSorted(current)
    ensures AllSorted(Pairs(current))
  {
    if |current| > 1 {
      var rest := current[2..];
      assert AllSorted(rest) by {
        forall k | 0 <= k < |rest| ensures Sorted(rest[k]) {
          assert rest[k] == current[k + 2];
        }
      }
      PairsSorted(rest);
      MergeSorted(current[0], current[1]);
      var next := Pairs(current);
      forall k | 0 <= k < |next| ensures Sorted(next[k]) {
        if k > 0 {
          assert next[k] == Pairs(rest)[k - 1];
        }
      }
    }
  }

  /** Repeated rounds keep every element and, on sorted lists, end sorted. */
  lemma {:induction false} ReduceCorrect(current: seq<seq<int>>)
    requires |current| >= 1
    ensures multiset(Reduce(current)) == multiset(Flatten(current))
    ensures AllSorted(current) ==> Sorted(Reduce(current))
    decreases |current|
  {
    if |current| == 1 {
      assert current == [current[0]];
      assert Flatten(current) == current[0] + Flatten([]);
    } else {
      PairsPermutation(current);
      if AllSorted(current) {
        PairsSorted(current);
      }
      ReduceCorrect(Pairs(current));
    }
  }

  /** On sorted inputs the result is sorted; for any input it is a permutation of
      the concatenated inputs and so has their summed length. */
  lemma MergeKCorrect(lists: seq<seq<int>>)
    ensures multiset(MergeK(lists)) == multiset(Flatten(lists))
    ensures |MergeK(lists)| == |Flatten(lists)|
    ensures AllSorted(lists) ==> Sorted(MergeK(lists))
  {
    if lists != [] {
      ReduceCorrect(lists);
    }
    assert |MergeK(lists)| == |multiset(MergeK(lists))|;
  }

  /** No lists give the empty list; a single list is returned unchanged. */
  lemma MergeKEdgeCases(s: seq<int>)
    ensures MergeK([]) == []
    ensures MergeK([s]) == s
  {
  }

  /** The number of rounds is ceil(log2 k): 2^Rounds(k) reaches k, and for k >= 2
      one round fewer would not. */
  lemma {:induction false} RoundsIsCeilLog2(k: nat)
    requires k >= 1
    ensures Pow2(Rounds(k)) >= k
    ensures k >= 2 ==> Pow2(Rounds(k) - 1) < k
    decreases k
  {
    if k >= 2 {
      var half := (k + 1) / 2;
      RoundsIsCeilLog2(half);
    }
  }
}
