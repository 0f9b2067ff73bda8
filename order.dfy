/** Orderings of integer sequences that the two sorts establish. */
module Order {
  import opened SwapLog

  /** Non-decreasing order. */
  predicate Sorted(s: seq<int>)
  {
    forall p, q :: 0 <= p < q < |s| ==> s[p] <= s[q]
  }

  /** Cells `p` and `q` of `s` are in non-decreasing order. The settled
      predicates below compare cells through this predicate rather than by
      indexing, so that their quantifiers are only instantiated where a proof
      names the pair of cells it needs. */
  predicate InOrder(s: seq<int>, p: nat, q: nat)
    requires p < |s| && q < |s|
  {
    s[p] <= s[q]
  }

  /** Everything from position `k` on is in its final place: every cell from
      `k` on is at least every cell before it, so that suffix is sorted and
      holds the largest values. Bubble sort grows such a suffix by one cell per
      outer pass. */
  predicate SuffixSettled(s: seq<int>, k: nat)
    requires k <= |s|
  {
    forall p, q :: 0 <= p < q < |s| && k <= q ==> InOrder(s, p, q)
  }

  /** Everything before position `k` is in its final place: every cell before
      `k` is at most every cell after it, so that prefix is sorted and holds the
      smallest values. Selection sort grows such a prefix by one cell per outer
      pass. */
  predicate PrefixSettled(s: seq<int>, k: nat)
    requires k <= |s|
  {
    forall p, q :: 0 <= p < q < |s| && p < k ==> InOrder(s, p, q)
  }

  /** Once at most the first cell is unsettled, the whole sequence is sorted. */
  lemma SuffixSettledSorted(s: seq<int>, k: nat)
    requires k <= 1 && k <= |s| && SuffixSettled(s, k)
    ensures Sorted(s)
  {
    forall p, q | 0 <= p < q < |s|
      ensures s[p] <= s[q]
    {
      assert InOrder(s, p, q);
    }
  }

  /** Once at most the last cell is unsettled, the whole sequence is sorted. */
  lemma PrefixSettledSorted(s: seq<int>, k: nat)
    requires k <= |s| <= k + 1 && PrefixSettled(s, k)
    ensures Sorted(s)
  {
    forall p, q | 0 <= p < q < |s|
      ensures s[p] <= s[q]
    {
      assert InOrder(s, p, q);
    }
  }

  /** `s[j]` is at least every cell before it. */
  predicate LargestSoFar(s: seq<int>, j: nat)
    requires j < |s|
  {
    forall k :: 0 <= k < j ==> InOrder(s, k, j)
  }

  /** One compare-and-exchange step of a bubble pass keeps the settled suffix
      and carries the largest value seen so far one cell to the right. */
  lemma BubbleStep(s: seq<int>, m: nat, j: nat)
    requires j + 1 < m <= |s|
    requires SuffixSettled(s, m)
    requires LargestSoFar(s, j)
    ensures s[j] > s[j + 1] ==>
              SuffixSettled(Swapped(s, j, j + 1), m) && LargestSoFar(Swapped(s, j, j + 1), j + 1)
    ensures s[j] <= s[j + 1] ==> LargestSoFar(s, j + 1)
  {
    var n := j + 1;
    if s[j] > s[n] {
      var t := Swapped(s, j, n);
      forall p, q | 0 <= p < q < |t| && m <= q
        ensures InOrder(t, p, q)
      {
        assert InOrder(s, p, q) && InOrder(s, j, q) && InOrder(s, n, q);
      }
      forall k | 0 <= k < n
        ensures InOrder(t, k, n)
      {
        if k < j {
          assert InOrder(s, k, j);
        }
      }
    } else {
      forall k | 0 <= k < n
        ensures InOrder(s, k, n)
      {
        if k < j {
          assert InOrder(s, k, j);
        }
      }
    }
  }

  /** When a pass ends, its last cell holds the largest value of the unsettled
      part, so the settled suffix has grown by one cell. */
  lemma BubblePassEnd(s: seq<int>, m: nat)
    requires 0 < m <= |s|
    requires SuffixSettled(s, m) && LargestSoFar(s, m - 1)
    ensures SuffixSettled(s, m - 1)
  {
    forall p, q | 0 <= p < q < |s| && m - 1 <= q
      ensures InOrder(s, p, q)
    {
    }
  }

  /** The first position at or after `from` that holds the minimum of `s[from..]`. */
  function FirstMinIndex(s: seq<int>, from: nat): (m: nat)
    requires from < |s|
    ensures from <= m < |s|
    decreases |s| - from
  {
    if from == |s| - 1 then from
    else
      var rest := FirstMinIndex(s, from + 1);
      if s[rest] < s[from] then rest else from
  }

  /** The index `FirstMinIndex` finds holds a value at most every value of
      `s[from..]` and strictly below every value before it there: it is the
      first position of the minimum. */
  lemma {:induction false} FirstMinIndexIsFirstMin(s: seq<int>, from: nat)
    requires from < |s|
    ensures forall k :: from <= k < |s| ==> s[FirstMinIndex(s, from)] <= s[k]
    ensures forall k :: from <= k < FirstMinIndex(s, from) ==> s[FirstMinIndex(s, from)] < s[k]
    decreases |s| - from
  {
    if from < |s| - 1 {
      FirstMinIndexIsFirstMin(s, from + 1);
    }
  }

  /** Exchanging the first minimum of `s[i..]` into position `i` settles one more cell. */
  lemma SelectionStep(s: seq<int>, i: nat, m: nat)
    requires i <= m < |s| && PrefixSettled(s, i)
    requires forall k :: i <= k < |s| ==> s[m] <= s[k]
    ensures PrefixSettled(Swapped(s, i, m), i + 1)
  {
    var t := Swapped(s, i, m);
    forall p, q | 0 <= p < q < |t| && p < i + 1
      ensures InOrder(t, p, q)
    {
      if p < i {
        assert InOrder(s, p, q) && InOrder(s, p, i) && InOrder(s, p, m);
      } else {
        assert s[m] <= s[q] && s[m] <= s[i];
      }
    }
  }

  /** The head of a non-empty sorted sequence is at most each of its values. */
  lemma HeadIsLeast(s: seq<int>, x: int)
    requires Sorted(s) && x in multiset(s)
    ensures s != [] && s[0] <= x
  {
    var i :| 0 <= i < |s| && s[i] == x;
  }

  /** Removing the head removes one occurrence of it from the multiset. */
  lemma TailMultiset(s: seq<int>)
    requires s != []
    ensures multiset(s[1..]) == multiset(s) - multiset{s[0]}
  {
    assert s == [s[0]] + s[1..];
  }

  /** A sorted permutation is unique: whichever sort completes, the array it
      leaves is the same. */
  lemma {:induction false} SortedPermutationUnique(s: seq<int>, t: seq<int>)
    requires Sorted(s) && Sorted(t) && multiset(s) == multiset(t)
    ensures s == t
    decreases |s|
  {
    if s == [] {
      assert |t| == |multiset(t)| == 0;
    } else {
      assert t != [] && s[0] == t[0] by {
        HeadIsLeast(t, s[0]);
        HeadIsLeast(s, t[0]);
      }
      assert multiset(s[1..]) == multiset(t[1..]) by {
        TailMultiset(s);
        TailMultiset(t);
      }
      SortedPermutationUnique(s[1..], t[1..]);
      assert s == [s[0]] + s[1..] && t == [t[0]] + t[1..];
    }
  }
}
