/** The two in-place sorts the visualization page animates, with the page's
    rendering and animation calls left out and every cancellation point kept.

    Each run polls its token where the page calls ThrowIfCancellationRequested
    or awaits a cancellable delay, and returns Cancelled at the first poll that
    observes a cancellation. Besides the status, a run reports how many polls
    passed, how many outer passes it finished, the exchanges it performed (the
    SmoothSwap calls) and, as ghost state, the succession of array states those
    exchanges went through, so that every exit can be related to the input. */
module SortVisual {
  import opened Cancellation
  import opened SwapLog
  import opened Order
  import opened Events
  import opened Schedules

  /** Every exchange in `log` is of two adjacent cells whose values were strictly out of order. */
  predicate AdjacentInversions(log: seq<Exchange>)
  {
    forall k :: 0 <= k < |log| ==> log[k].hi == log[k].lo + 1 && log[k].loValue > log[k].hiValue
  }

  lemma AdjacentAppend(log: seq<Exchange>, e: Exchange)
    requires AdjacentInversions(log) && e.hi == e.lo + 1 && e.loValue > e.hiValue
    ensures AdjacentInversions(log + [e])
  {
  }

  /** The number of comparisons in the first `passes` outer passes of either
      sort over `n` cells: pass `p` compares `n - p - 1` pairs. */
  function Comparisons(n: nat, passes: nat): int
  {
    if passes == 0 then 0 else Comparisons(n, passes - 1) + (n - passes)
  }

  /** Closed form of `Comparisons`. */
  lemma {:induction false} ComparisonsClosedForm(n: nat, passes: nat)
    ensures 2 * Comparisons(n, passes) == passes * (2 * n - passes - 1)
  {
    if passes > 0 {
      ComparisonsClosedForm(n, passes - 1);
      calc {
        2 * Comparisons(n, passes);
        2 * Comparisons(n, passes - 1) + 2 * (n - passes);
        (passes - 1) * (2 * n - passes) + 2 * (n - passes);
        passes * (2 * n - passes - 1);
      }
    }
  }

  /** All `n - 1` passes together compare `n * (n - 1) / 2` pairs. */
  lemma AllComparisons(n: nat)
    requires 1 <= n
    ensures 2 * Comparisons(n, n - 1) == n * (n - 1)
  {
    ComparisonsClosedForm(n, n - 1);
  }

  /** Exchange two cells of `a` through a temporary, as both sorts do. */
  method SwapCells(a: array<int>, i: nat, j: nat)
    requires i < a.Length && j < a.Length
    modifies a
    ensures a[..] == Swapped(old(a[..]), i, j)
  {
    var temp := a[i];
    a[i] := a[j];
    a[j] := temp;
  }

  /** One iteration of a bubble pass: poll, highlight and poll again, then
      exchange `a[j]` and `a[j + 1]` when strictly out of order and poll once
      more after the exchange. `m` is where the settled suffix begins. */
  method BubbleCompare(a: array<int>, i: nat, j: nat, token: CancellationToken, polls0: nat,
                       ghost s0: seq<int>, ghost states0: seq<seq<int>>, swaps0: seq<Exchange>)
    returns (cancelled: bool, polls: nat, ghost states: seq<seq<int>>, swaps: seq<Exchange>)
    requires j + 1 < a.Length - i
    requires SuffixSettled(a[..], a.Length - i) && LargestSoFar(a[..], j)
    requires Trace(s0, states0, swaps0, a[..])
    requires AdjacentInversions(swaps0)
    requires Unobserved(token, polls0)
    modifies a
    ensures Trace(s0, states, swaps, a[..])
    ensures AdjacentInversions(swaps)
    ensures SuffixSettled(a[..], a.Length - i)
    ensures !cancelled ==> LargestSoFar(a[..], j + 1)
    // either nothing was exchanged, or exactly the strictly inverted pair `j, j + 1`
    ensures states0 <= states
    ensures (swaps == swaps0 && a[..] == old(a[..])) ||
            (old(a[j]) > old(a[j + 1]) &&
             swaps == swaps0 + [Exchange(j, j + 1, old(a[j]), old(a[j + 1]))] &&
             a[..] == Swapped(old(a[..]), j, j + 1))
    ensures !cancelled ==> (swaps != swaps0 <==> old(a[j]) > old(a[j + 1]))
    // two polls for the comparison and one more after an exchange
    ensures !cancelled ==> polls + |swaps0| == polls0 + 2 + |swaps|
    ensures polls0 <= polls && Unobserved(token, polls)
    ensures cancelled ==> token == CancelledAfter(polls)
    // where the comparison ends: at the first poll that observes a cancellation,
    // with the exchange made only once both polls before it have passed
    ensures Outcome(cancelled, polls, swaps, a[..]) == CompareOutcome(old(a[..]), j, token, polls0, swaps0)
    // so the comparison carries the run on: a cancelled one ends it where it
    // stands, and otherwise it goes on from the next comparison
    ensures BubbleFrom(old(a[..]), i, j, token, polls0, swaps0) ==
            if cancelled then Outcome(true, polls, swaps, a[..]) else BubbleFrom(a[..], i, j + 1, token, polls, swaps)
    ensures !cancelled ==> SweepResult(old(a[..]), j, a.Length - i) == SweepResult(a[..], j + 1, a.Length - i)
    // a cancelled comparison exchanged its pair only when the poll after the
    // exchange observed the cancellation
    ensures cancelled ==> (swaps != swaps0 <==> polls == polls0 + 2)
  {
    cancelled, polls, states, swaps := false, polls0, states0, swaps0;
    cancelled := Requested(token, polls);
    if !cancelled {
      polls := polls + 1;
      cancelled := Requested(token, polls);
    }
    if !cancelled {
      polls := polls + 1;
      ghost var s := a[..];
      BubbleStep(s, a.Length - i, j);
      if a[j] > a[j + 1] {
        var e := Exchange(j, j + 1, a[j], a[j + 1]);
        TraceExtend(s0, states, swaps, s, e);
        AdjacentAppend(swaps, e);
        SwapCells(a, j, j + 1);
        states, swaps := states + [a[..]], swaps + [e];
        cancelled := Requested(token, polls);
        if !cancelled {
          polls := polls + 1;
        }
      }
    }
  }

  /** One outer pass of bubble sort (the inner loop): compare each adjacent pair
      of `a[..a.Length - i]` and exchange it when strictly out of order. */
  method BubblePass(a: array<int>, i: nat, token: CancellationToken, polls0: nat,
                    ghost s0: seq<int>, ghost states0: seq<seq<int>>, swaps0: seq<Exchange>)
    returns (cancelled: bool, polls: nat, ghost states: seq<seq<int>>, swaps: seq<Exchange>)
    requires i + 1 < a.Length
    requires SuffixSettled(a[..], a.Length - i)
    requires Trace(s0, states0, swaps0, a[..])
    requires AdjacentInversions(swaps0)
    requires Unobserved(token, polls0)
    modifies a
    ensures Trace(s0, states, swaps, a[..])
    ensures AdjacentInversions(swaps)
    ensures SuffixSettled(a[..], if cancelled then a.Length - i else a.Length - i - 1)
    // the earlier log is kept; a full pass makes two polls per comparison and one per exchange
    ensures states0 <= states && swaps0 <= swaps
    ensures !cancelled ==> polls + |swaps0| == polls0 + 2 * (a.Length - i - 1) + |swaps|
    ensures polls0 <= polls && Unobserved(token, polls)
    ensures cancelled ==> token == CancelledAfter(polls)
    // the pass carries the run on: its first cancelled comparison ends the run
    // where it stands, and otherwise the run goes on from the next pass, on the
    // array the uncancelled pass leaves
    ensures BubbleFrom(old(a[..]), i, 0, token, polls0, swaps0) ==
            if cancelled then Outcome(true, polls, swaps, a[..]) else BubbleFrom(a[..], i + 1, 0, token, polls, swaps)
    ensures !cancelled ==> a[..] == SweepResult(old(a[..]), 0, a.Length - i)
  {
    var m := a.Length - i;
    cancelled, polls, states, swaps := false, polls0, states0, swaps0;
    var j := 0;
    ghost var s := a[..];
    while j < m - 1
      invariant 0 <= j <= m - 1 && !cancelled
      invariant LargestSoFar(a[..], j)
      invariant SuffixSettled(a[..], m)
      invariant Trace(s0, states, swaps, a[..])
      invariant AdjacentInversions(swaps)
      invariant states0 <= states && swaps0 <= swaps
      invariant polls + |swaps0| == polls0 + 2 * j + |swaps|
      invariant polls0 <= polls && Unobserved(token, polls)
      invariant BubbleFrom(s, i, 0, token, polls0, swaps0) == BubbleFrom(a[..], i, j, token, polls, swaps)
      invariant SweepResult(s, 0, m) == SweepResult(a[..], j, m)
    {
      cancelled, polls, states, swaps := BubbleCompare(a, i, j, token, polls, s0, states, swaps);
      if cancelled {
        break;
      }
      j := j + 1;
    }
    if !cancelled {
      BubblePassEnd(a[..], m);
    }
  }

  /** The outer loop of bubble sort, without early exit: pass `i` bubbles the
      largest value of `a[..a.Length - i]` to its last cell. */
  method BubblePasses(a: array<int>, token: CancellationToken)
    returns (status: Status, polls: nat, passes: nat, swaps: seq<Exchange>,
             ghost states: seq<seq<int>>)
    modifies a
    ensures Trace(old(a[..]), states, swaps, a[..])
    ensures AdjacentInversions(swaps)
    ensures passes <= a.Length && SuffixSettled(a[..], a.Length - passes)
    ensures Unobserved(token, polls)
    ensures status == Cancelled ==> token == CancelledAfter(polls) && passes + 1 < a.Length
    ensures status == Completed ==>
              passes == (if a.Length == 0 then 0 else a.Length - 1) &&
              polls == 2 * Comparisons(a.Length, passes) + |swaps|
    ensures a.Length <= 1 ==> swaps == []
    // where the run ends: its first cancelled pass ends it, and a completed
    // run left the array the uncancelled run gives
    ensures Outcome(status == Cancelled, polls, swaps, a[..]) == BubbleOutcome(old(a[..]), token)
  {
    var n := a.Length;
    status, polls, passes, swaps, states := Completed, 0, 0, [], [a[..]];
    var i := 0;
    ghost var s := a[..];
    while i < n - 1
      invariant 0 <= i <= n && (i == 0 || i <= n - 1)
      invariant SuffixSettled(a[..], n - i)
      invariant Trace(old(a[..]), states, swaps, a[..])
      invariant AdjacentInversions(swaps)
      invariant Unobserved(token, polls)
      invariant polls == 2 * Comparisons(n, i) + |swaps|
      invariant n <= 1 ==> swaps == []
      invariant BubbleOutcome(s, token) == BubbleFrom(a[..], i, 0, token, polls, swaps)
    {
      var cancelled;
      cancelled, polls, states, swaps := BubblePass(a, i, token, polls, old(a[..]), states, swaps);
      if cancelled {
        status := Cancelled;
        break;
      }
      i := i + 1;
    }
    passes := i;
  }

  /** Bubble sort: the outer loop, and what a run that ends has achieved. */
  method BubbleSortVisual(a: array<int>, token: CancellationToken)
    returns (status: Status, polls: nat, passes: nat, swaps: seq<Exchange>,
             ghost states: seq<seq<int>>)
    modifies a
    // the array went from its input to its final contents through the logged
    // exchanges only, so at every exit it is a permutation of its input
    ensures Trace(old(a[..]), states, swaps, a[..])
    ensures forall k :: 0 <= k < |states| ==> multiset(states[k]) == multiset(old(a[..]))
    ensures multiset(a[..]) == multiset(old(a[..]))
    // only adjacent cells whose values are strictly out of order are ever exchanged
    ensures AdjacentInversions(swaps)
    // each finished pass has settled one more cell at the end
    ensures passes <= a.Length && SuffixSettled(a[..], a.Length - passes)
    // cancellation is observed exactly at the first poll after it was requested
    ensures Unobserved(token, polls)
    ensures status == Cancelled ==> token == CancelledAfter(polls)
    ensures status == Completed ==>
              Sorted(a[..]) && passes == if a.Length == 0 then 0 else a.Length - 1
    // a completed run polled twice per comparison and once per exchange, so a
    // cancellation requested before that many polls ends the run
    ensures status == Completed ==> polls == 2 * Comparisons(a.Length, passes) + |swaps|
    ensures token.CancelledAfter? && token.polls < a.Length * (a.Length - 1) ==> status == Cancelled
    ensures a.Length <= 1 ==> status == Completed && polls == 0 && a[..] == old(a[..])
    // the run ends where a bubble sort of its input under the token ends: it
    // performed exactly the steps of the uncancelled run before the poll that
    // observed a cancellation, and a completed run left that run's array
    ensures Outcome(status == Cancelled, polls, swaps, a[..]) == BubbleOutcome(old(a[..]), token)
    ensures status == Completed ==> a[..] == BubbleResult(old(a[..]))
  {
    status, polls, passes, swaps, states := BubblePasses(a, token);
    BubbleFromCells(old(a[..]), 0, 0, token, 0, []);
    if status == Completed {
      SuffixSettledSorted(a[..], a.Length - passes);
      if 1 <= a.Length {
        AllComparisons(a.Length);
      }
    }
    TracePermutes(old(a[..]), states, swaps, a[..]);
  }

  /** The inner loop of selection sort: scan `a[i + 1..]` for a value strictly
      below the smallest seen so far. The scan only reads the array. */
  method ScanForMin(a: array<int>, i: nat, token: CancellationToken, polls0: nat)
    returns (cancelled: bool, minIndex: nat, polls: nat)
    requires i < a.Length
    requires Unobserved(token, polls0)
    ensures polls0 <= polls && Unobserved(token, polls)
    ensures cancelled ==> token == CancelledAfter(polls)
    // the scan is cancelled exactly when one of its polls observes the cancellation
    ensures cancelled <==> token.CancelledAfter? && token.polls < polls0 + 2 * (a.Length - i - 1)
    // the strict comparison keeps the first position holding the minimum
    ensures !cancelled ==>
              minIndex == FirstMinIndex(a[..], i) && polls == polls0 + 2 * (a.Length - i - 1)
  {
    cancelled, minIndex, polls := false, i, polls0;
    var j := i + 1;
    while j < a.Length
      invariant i < j <= a.Length
      invariant i <= minIndex < j
      invariant forall k :: i <= k < j ==> a[minIndex] <= a[k]
      invariant forall k :: i <= k < minIndex ==> a[minIndex] < a[k]
      invariant polls == polls0 + 2 * (j - i - 1)
      invariant Unobserved(token, polls)
    {
      // ThrowIfCancellationRequested
      if Requested(token, polls) {
        cancelled := true;
        return;
      }
      polls := polls + 1;
      // the delay after highlighting the compared pair
      if Requested(token, polls) {
        cancelled := true;
        return;
      }
      polls := polls + 1;
      if a[j] < a[minIndex] {
        minIndex := j;
      }
      j := j + 1;
    }
    FirstMinIndexIsFirstMin(a[..], i);
    var m := FirstMinIndex(a[..], i);
    assert a[m] <= a[minIndex] && a[minIndex] <= a[m];
  }

  /** Every exchange in `log` brings a strictly smaller value forward into a
      position below `bound`, and the positions filled strictly increase along
      the log: selection sort performs at most one exchange per pass. */
  predicate ForwardExchanges(log: seq<Exchange>, bound: nat)
  {
    (forall k :: 0 <= k < |log| ==> log[k].lo < bound && log[k].hiValue < log[k].loValue) &&
    (forall k, k' :: 0 <= k < k' < |log| ==> Lo(log, k) < Lo(log, k'))
  }

  /** The position exchange `k` of `log` filled. */
  function Lo(log: seq<Exchange>, k: nat): int
    requires k < |log|
  {
    log[k].lo
  }

  lemma ForwardAppend(log: seq<Exchange>, i: nat, e: Exchange)
    requires ForwardExchanges(log, i) && e.lo == i && e.hiValue < e.loValue
    ensures ForwardExchanges(log + [e], i + 1)
  {
    var log' := log + [e];
    forall k, k' | 0 <= k < k' < |log'|
      ensures Lo(log', k) < Lo(log', k')
    {
      assert log'[k] == log[k];
      if k' < |log| {
        assert log'[k'] == log[k'] && Lo(log, k) < Lo(log, k');
      }
    }
  }

  /** An exchange log of that shape holds at most one exchange per position below `bound`. */
  lemma {:induction false} ForwardExchangesCount(log: seq<Exchange>, bound: nat)
    requires ForwardExchanges(log, bound)
    ensures |log| <= bound
    decreases |log|
  {
    if log != [] {
      var last := log[|log| - 1];
      var front := log[..|log| - 1];
      assert ForwardExchanges(front, last.lo) by {
        forall k | 0 <= k < |front|
          ensures front[k].lo < last.lo
        {
          assert front[k] == log[k] && Lo(log, k) < Lo(log, |log| - 1);
        }
        forall k, k' | 0 <= k < k' < |front|
          ensures Lo(front, k) < Lo(front, k')
        {
          assert Lo(log, k) < Lo(log, k');
        }
      }
      ForwardExchangesCount(front, last.lo);
    }
  }

  /** Each exchange in `log` takes its partner from the first position of the
      minimum of the suffix it fills, in the state `states[k]` it was made in. */
  predicate FirstMinimumPartners(states: seq<seq<int>>, log: seq<Exchange>)
  {
    forall k :: 0 <= k < |log| && k < |states| && log[k].lo < |states[k]| ==>
      log[k].hi == FirstMinIndex(states[k], log[k].lo)
  }

  lemma PartnersAppend(states: seq<seq<int>>, log: seq<Exchange>, s: seq<int>, t: seq<int>, e: Exchange)
    requires FirstMinimumPartners(states, log)
    requires |states| == |log| + 1 && states[|log|] == s
    requires e.lo < |s| && e.hi == FirstMinIndex(s, e.lo)
    ensures FirstMinimumPartners(states + [t], log + [e])
  {
    var states', log' := states + [t], log + [e];
    forall k | 0 <= k < |log'| && k < |states'| && log'[k].lo < |states'[k]|
      ensures log'[k].hi == FirstMinIndex(states'[k], log'[k].lo)
    {
      assert states'[k] == states[k];
      if k < |log| {
        assert log'[k] == log[k];
      }
    }
  }

  /** One outer pass of selection sort: find the first minimum of `a[i..]`,
      then exchange it into position `i` unless it is already there and poll
      once more after the exchange. The ghost `r` is where the schedule says
      the run from this pass on ends. */
  method SelectionPass(a: array<int>, i: nat, token: CancellationToken, polls0: nat,
                       ghost s0: seq<int>, ghost states0: seq<seq<int>>, swaps0: seq<Exchange>, ghost r: Outcome)
    returns (cancelled: bool, polls: nat, ghost states: seq<seq<int>>, swaps: seq<Exchange>)
    requires i + 1 < a.Length
    requires r == SelectionScanFrom(a[..], i, token, polls0, swaps0)
    requires PrefixSettled(a[..], i)
    requires Trace(s0, states0, swaps0, a[..])
    requires ForwardExchanges(swaps0, i) && FirstMinimumPartners(states0, swaps0)
    requires Unobserved(token, polls0)
    modifies a
    ensures Trace(s0, states, swaps, a[..])
    ensures ForwardExchanges(swaps, i + 1) && FirstMinimumPartners(states, swaps)
    ensures PrefixSettled(a[..], i)
    ensures !cancelled ==> PrefixSettled(a[..], i + 1)
    // the earlier log is kept, and the first minimum of `a[i..]` is exchanged
    // into position `i` exactly when it lies elsewhere
    ensures swaps0 <= swaps && |swaps| <= |swaps0| + 1
    ensures a[..] == if |swaps| == |swaps0| then old(a[..])
                     else Swapped(old(a[..]), i, FirstMinIndex(old(a[..]), i))
    ensures !cancelled ==> (|swaps| == |swaps0| + 1 <==> FirstMinIndex(old(a[..]), i) != i)
    // two polls per comparison of the scan and one more after an exchange
    ensures !cancelled ==> polls + |swaps0| == polls0 + 2 * (a.Length - i - 1) + |swaps|
    ensures polls0 <= polls && Unobserved(token, polls)
    ensures cancelled ==> token == CancelledAfter(polls)
    // the pass carries the run on as the schedule says: a cancellation
    // observed during the scan ends it before any exchange, one observed by
    // the poll after the exchange ends it after that exchange, and otherwise
    // the run goes on from the next pass
    ensures cancelled ==> r == Outcome(true, polls, swaps, a[..])
    ensures !cancelled ==> r == SelectionScanFrom(a[..], i + 1, token, polls, swaps)
    // a cancelled pass exchanged only when its scan ran to the end
    ensures cancelled ==> (|swaps| == |swaps0| + 1 <==> polls == polls0 + 2 * (a.Length - i - 1))
  {
    var minIndex;
    cancelled, minIndex, polls := ScanForMin(a, i, token, polls0);
    states, swaps := states0, swaps0;
    if !cancelled {
      ghost var s := a[..];
      FirstMinIndexIsFirstMin(s, i);
      SelectionStep(s, i, minIndex);
      if minIndex != i {
        var e := Exchange(i, minIndex, a[i], a[minIndex]);
        TraceExtend(s0, states, swaps, s, e);
        ForwardAppend(swaps, i, e);
        PartnersAppend(states, swaps, s, Swapped(s, i, minIndex), e);
        SwapCells(a, i, minIndex);
        states, swaps := states + [a[..]], swaps + [e];
        // the delay after the exchange has been animated
        cancelled := Requested(token, polls);
        if !cancelled {
          polls := polls + 1;
        }
      }
    }
  }

  /** The outer loop of selection sort: pass `i` finds the first minimum of
      `a[i..]` and exchanges it into position `i` unless it is already there. */
  method SelectionPasses(a: array<int>, token: CancellationToken)
    returns (status: Status, polls: nat, passes: nat, swaps: seq<Exchange>,
             ghost states: seq<seq<int>>)
    modifies a
    ensures Trace(old(a[..]), states, swaps, a[..])
    ensures ForwardExchanges(swaps, if status == Completed then passes else passes + 1)
    ensures FirstMinimumPartners(states, swaps)
    ensures passes <= a.Length && PrefixSettled(a[..], passes)
    ensures Unobserved(token, polls)
    ensures status == Cancelled ==> token == CancelledAfter(polls) && passes + 1 < a.Length
    ensures status == Completed ==>
              passes == (if a.Length == 0 then 0 else a.Length - 1) &&
              polls == 2 * Comparisons(a.Length, passes) + |swaps|
    // where the run ends: its first cancelled pass ends it, and a completed
    // run left the array the uncancelled run gives
    ensures Outcome(status == Cancelled, polls, swaps, a[..]) == SelectionOutcome(old(a[..]), token)
  {
    var n := a.Length;
    status, polls, passes, swaps, states := Completed, 0, 0, [], [a[..]];
    var i := 0;
    ghost var r := SelectionOutcome(a[..], token);
    while i < n - 1
      invariant 0 <= i <= n && (i == 0 || i <= n - 1)
      invariant r == SelectionScanFrom(a[..], i, token, polls, swaps)
      invariant PrefixSettled(a[..], i)
      invariant Trace(old(a[..]), states, swaps, a[..])
      invariant ForwardExchanges(swaps, i) && FirstMinimumPartners(states, swaps)
      invariant Unobserved(token, polls)
      invariant polls == 2 * Comparisons(n, i) + |swaps|
    {
      var cancelled;
      cancelled, polls, states, swaps := SelectionPass(a, i, token, polls, old(a[..]), states, swaps, r);
      if cancelled {
        status, passes := Cancelled, i;
        return;
      }
      i := i + 1;
    }
    passes := i;
  }

  /** Selection sort: the outer loop, and what a run that ends has achieved. */
  method SelectionSortVisual(a: array<int>, token: CancellationToken)
    returns (status: Status, polls: nat, passes: nat, swaps: seq<Exchange>,
             ghost states: seq<seq<int>>)
    modifies a
    // the array went from its input to its final contents through the logged
    // exchanges only, so at every exit it is a permutation of its input
    ensures Trace(old(a[..]), states, swaps, a[..])
    ensures forall k :: 0 <= k < |states| ==> multiset(states[k]) == multiset(old(a[..]))
    ensures multiset(a[..]) == multiset(old(a[..]))
    // each exchange brings a strictly smaller value forward into the position of
    // its pass, at most once per pass
    ensures var bound := if status == Completed then passes else passes + 1;
            ForwardExchanges(swaps, bound) && |swaps| <= bound
    // and takes it from the first position of the minimum of the suffix it fills
    ensures FirstMinimumPartners(states, swaps)
    // each finished pass has settled one more cell at the front
    ensures passes <= a.Length && PrefixSettled(a[..], passes)
    // cancellation is observed exactly at the first poll after it was requested
    ensures Unobserved(token, polls)
    ensures status == Cancelled ==> token == CancelledAfter(polls)
    ensures status == Completed ==>
              Sorted(a[..]) && passes == (if a.Length == 0 then 0 else a.Length - 1)
    // a completed run polled twice per comparison and once per exchange, so a
    // cancellation requested before that many polls ends the run
    ensures status == Completed ==> polls == 2 * Comparisons(a.Length, passes) + |swaps|
    ensures token.CancelledAfter? && token.polls < a.Length * (a.Length - 1) ==> status == Cancelled
    ensures a.Length <= 1 ==> status == Completed && polls == 0 && a[..] == old(a[..])
    // the run ends where a selection sort of its input under the token ends:
    // it performed exactly the steps of the uncancelled run before the poll
    // that observed a cancellation, and a completed run left that run's array
    ensures Outcome(status == Cancelled, polls, swaps, a[..]) == SelectionOutcome(old(a[..]), token)
    ensures status == Completed ==> a[..] == SelectionResult(old(a[..]))
  {
    status, polls, passes, swaps, states := SelectionPasses(a, token);
    SelectionScanFromCells(old(a[..]), 0, token, 0, []);
    if status == Completed {
      PrefixSettledSorted(a[..], passes);
      if 1 <= a.Length {
        AllComparisons(a.Length);
      }
    }
    ForwardExchangesCount(swaps, if status == Completed then passes else passes + 1);
    TracePermutes(old(a[..]), states, swaps, a[..]);
  }
}
