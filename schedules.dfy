/** The two sorts as functions of the array they start from and the token.

    For each part of a run (one comparison or one pass, then all passes) there
    are two descriptions. The uncancelled one is the sequence of steps the part
    performs when no cancellation is ever requested, with the array it leaves.
    The outcome under a token is where the part ends when the first poll that
    observes the cancellation ends it. The lemmas tie the two together: the
    outcome performed exactly the uncancelled steps before that poll. */
module Schedules {
  import opened Cancellation
  import opened SwapLog
  import opened Order
  import opened Events

  /** Where a run, or a part of one, ended: whether a poll observed the
      cancellation, how many polls had passed, the exchange log and the array. */
  datatype Outcome = Outcome(cancelled: bool, polls: nat, log: seq<Exchange>, cells: seq<int>)

  // Bubble sort

  /** The array after comparing `s[j]` with `s[j + 1]` and exchanging them when
      strictly out of order. */
  function CompareResult(s: seq<int>, j: nat): (r: seq<int>)
    requires j + 1 < |s|
    ensures |r| == |s|
  {
    if s[j] > s[j + 1] then Swapped(s, j, j + 1) else s
  }

  /** The steps of one comparison: the poll before it, the poll of the delay
      after highlighting the pair, and, when the pair is strictly out of
      order, its exchange and the poll of the delay after it. */
  function CompareSteps(s: seq<int>, j: nat): seq<Step>
    requires j + 1 < |s|
  {
    [Poll] + ([Poll] + (if s[j] > s[j + 1] then [Swap(Exchange(j, j + 1, s[j], s[j + 1]))] + [Poll] else []))
  }

  /** One comparison under `token`, started after `p` polls with the log `log`. */
  function CompareOutcome(s: seq<int>, j: nat, token: CancellationToken, p: nat, log: seq<Exchange>): (r: Outcome)
    requires j + 1 < |s|
    ensures |r.cells| == |s|
  {
    if Requested(token, p) then Outcome(true, p, log, s)
    else if Requested(token, p + 1) then Outcome(true, p + 1, log, s)
    else if s[j] <= s[j + 1] then Outcome(false, p + 2, log, s)
    else
      var t, log' := Swapped(s, j, j + 1), log + [Exchange(j, j + 1, s[j], s[j + 1])];
      if Requested(token, p + 2) then Outcome(true, p + 2, log', t) else Outcome(false, p + 3, log', t)
  }

  /** The array after comparisons `j` to `m - 2` of a pass over `s[..m]`. */
  function SweepResult(s: seq<int>, j: nat, m: nat): (r: seq<int>)
    requires j < m <= |s|
    ensures |r| == |s|
    decreases m - j
  {
    if j + 1 == m then s else SweepResult(CompareResult(s, j), j + 1, m)
  }

  /** The steps of the uncancelled run from comparison `j` of pass `i` on: the
      rest of that pass, then passes `i + 1` to `|s| - 2`; pass `i` makes the
      comparisons of `s[..|s| - i]`. */
  function BubbleStepsFrom(s: seq<int>, i: nat, j: nat): seq<Step>
    requires i + 1 >= |s| || j < |s| - i
    decreases |s| - i, |s| - i - j
  {
    if i + 1 >= |s| then []
    else if j + 1 == |s| - i then BubbleStepsFrom(s, i + 1, 0)
    else CompareSteps(s, j) + BubbleStepsFrom(CompareResult(s, j), i, j + 1)
  }

  /** The array the uncancelled run from comparison `j` of pass `i` leaves. */
  function BubbleResultFrom(s: seq<int>, i: nat, j: nat): (r: seq<int>)
    requires i + 1 >= |s| || j < |s| - i
    ensures |r| == |s|
    decreases |s| - i
  {
    if i + 1 >= |s| then s else BubbleResultFrom(SweepResult(s, j, |s| - i), i + 1, 0)
  }

  /** The run from comparison `j` of pass `i` on under `token`, started after
      `p` polls with the log `log`: the first cancelled comparison ends it. */
  function BubbleFrom(s: seq<int>, i: nat, j: nat, token: CancellationToken, p: nat, log: seq<Exchange>): (r: Outcome)
    requires i + 1 >= |s| || j < |s| - i
    ensures |r.cells| == |s|
    decreases |s| - i, |s| - i - j
  {
    if i + 1 >= |s| then Outcome(false, p, log, s)
    else if j + 1 == |s| - i then BubbleFrom(s, i + 1, 0, token, p, log)
    else
      var c := CompareOutcome(s, j, token, p, log);
      if c.cancelled then c else BubbleFrom(c.cells, i, j + 1, token, c.polls, c.log)
  }

  /** What an uncancelled bubble sort of `s` does, and the array it leaves. */
  function BubbleSchedule(s: seq<int>): seq<Step>
  {
    BubbleStepsFrom(s, 0, 0)
  }

  function BubbleResult(s: seq<int>): (r: seq<int>)
    ensures |r| == |s|
  {
    BubbleResultFrom(s, 0, 0)
  }

  /** Where a bubble sort of `s` under `token` ends. */
  function BubbleOutcome(s: seq<int>, token: CancellationToken): (r: Outcome)
    ensures |r.cells| == |s|
  {
    BubbleFrom(s, 0, 0, token, 0, [])
  }

  /** One comparison under a token performs exactly the comparison's steps
      before the poll that observes the cancellation; the exchange happens
      exactly when both polls before it passed and the pair is inverted, and
      an uncancelled comparison leaves the array the uncancelled one does. */
  lemma CompareOutcomeRan(s: seq<int>, j: nat, token: CancellationToken, p0: nat, log0: seq<Exchange>)
    requires j + 1 < |s| && Unobserved(token, p0)
    ensures var r := CompareOutcome(s, j, token, p0, log0);
            RanAs(CompareSteps(s, j), token, p0, r.cancelled, r.polls, log0, r.log) &&
            (!r.cancelled ==> r.cells == CompareResult(s, j))
  {
    var inv := s[j] > s[j + 1];
    var e := Exchange(j, j + 1, s[j], s[j + 1]);
    var tail := if inv then [Swap(e)] + [Poll] else [];
    RanPoll(token, p0, log0);
    if Requested(token, p0) {
      RanStopped([Poll], [Poll] + tail, token, p0, p0, log0, log0);
    } else {
      RanPoll(token, p0 + 1, log0);
      if Requested(token, p0 + 1) {
        RanStopped([Poll], tail, token, p0 + 1, p0 + 1, log0, log0);
        RanThen([Poll], [Poll] + tail, token, true, p0, p0 + 1, p0 + 1, log0, log0, log0);
      } else {
        var third := Requested(token, p0 + 2);
        var p := if !inv then p0 + 2 else if third then p0 + 2 else p0 + 3;
        var log := if inv then log0 + [e] else log0;
        if inv {
          RanSwap(e, token, p0 + 2, log0);
          RanPoll(token, p0 + 2, log0 + [e]);
          RanThen([Swap(e)], [Poll], token, third, p0 + 2, p0 + 2, p, log0, log0 + [e], log);
        } else {
          RanNothing(token, p0 + 2, log0);
        }
        RanThen([Poll], tail, token, inv && third, p0 + 1, p0 + 2, p, log0, log0, log);
        RanThen([Poll], [Poll] + tail, token, inv && third, p0, p0 + 1, p, log0, log0, log);
      }
    }
  }

  /** The run from comparison `j` of pass `i` under a token performs exactly
      the uncancelled steps from there before the poll that observes the
      cancellation. */
  lemma {:induction false} BubbleFromRan(s: seq<int>, i: nat, j: nat, token: CancellationToken,
                                         p: nat, log: seq<Exchange>)
    requires i + 1 >= |s| || j < |s| - i
    requires Unobserved(token, p)
    ensures var r := BubbleFrom(s, i, j, token, p, log);
            RanAs(BubbleStepsFrom(s, i, j), token, p, r.cancelled, r.polls, log, r.log)
    decreases |s| - i, |s| - i - j
  {
    if i + 1 >= |s| {
      RanNothing(token, p, log);
    } else if j + 1 == |s| - i {
      BubbleFromRan(s, i + 1, 0, token, p, log);
    } else {
      var c := CompareOutcome(s, j, token, p, log);
      var tail := BubbleStepsFrom(CompareResult(s, j), i, j + 1);
      CompareOutcomeRan(s, j, token, p, log);
      if c.cancelled {
        RanStopped(CompareSteps(s, j), tail, token, p, c.polls, log, c.log);
      } else {
        RanMeaning(CompareSteps(s, j), token, p, false, c.polls, log, c.log);
        BubbleFromRan(c.cells, i, j + 1, token, c.polls, c.log);
        var r := BubbleFrom(c.cells, i, j + 1, token, c.polls, c.log);
        RanThen(CompareSteps(s, j), tail, token, r.cancelled, p, c.polls, r.polls, log, c.log, r.log);
      }
    }
  }

  /** A run from comparison `j` of pass `i` that no poll cancelled leaves the
      array the uncancelled run from there leaves. */
  lemma {:induction false} BubbleFromCells(s: seq<int>, i: nat, j: nat, token: CancellationToken,
                                           p: nat, log: seq<Exchange>)
    requires i + 1 >= |s| || j < |s| - i
    ensures var r := BubbleFrom(s, i, j, token, p, log);
            !r.cancelled ==> r.cells == BubbleResultFrom(s, i, j)
    decreases |s| - i, |s| - i - j
  {
    var m := |s| - i;
    if i + 1 < |s| {
      if j + 1 == m {
        assert SweepResult(s, j, m) == s;
        BubbleFromCells(s, i + 1, 0, token, p, log);
      } else {
        var c := CompareOutcome(s, j, token, p, log);
        if !c.cancelled {
          var t := CompareResult(s, j);
          assert c.cells == t;
          assert BubbleResultFrom(s, i, j) == BubbleResultFrom(t, i, j + 1) by {
            assert SweepResult(s, j, m) == SweepResult(t, j + 1, m);
          }
          BubbleFromCells(t, i, j + 1, token, c.polls, c.log);
        }
      }
    }
  }

  /** What a bubble sort of `s` under `token` promises: it performed exactly
      the steps of the uncancelled run before the poll that observed a
      cancellation, so its log is a prefix of the uncancelled log; it completes
      exactly when the token allows every poll of the uncancelled run, and
      then it leaves the uncancelled run's array and log; cancelled, it stopped
      at the token's poll with exactly the exchanges before that poll. */
  lemma BubbleOutcomeMeaning(s: seq<int>, token: CancellationToken)
    ensures var r, ev := BubbleOutcome(s, token), BubbleSchedule(s);
            RanAs(ev, token, 0, r.cancelled, r.polls, [], r.log) &&
            r.log <= SwapsOf(ev) &&
            (!r.cancelled <==> token == Never || PollsOf(ev) <= token.polls) &&
            (!r.cancelled ==> r.cells == BubbleResult(s) && r.polls == PollsOf(ev) && r.log == SwapsOf(ev)) &&
            (r.cancelled ==> token == CancelledAfter(r.polls) && r.polls < PollsOf(ev) &&
                             r.log == SwapsOf(Stop(ev, r.polls)))
  {
    var r, ev := BubbleOutcome(s, token), BubbleSchedule(s);
    BubbleFromRan(s, 0, 0, token, 0, []);
    BubbleFromCells(s, 0, 0, token, 0, []);
    RanMeaning(ev, token, 0, r.cancelled, r.polls, [], r.log);
  }

  /** A pass over `s[..m]` from comparison `j` on, with `s[j]` the largest of
      `s[..j + 1]` and the suffix from `m` settled, carries the largest value
      of `s[..m]` into cell `m - 1`, settling one more cell, and only moves
      values around. */
  lemma {:induction false} SweepSettles(s: seq<int>, j: nat, m: nat)
    requires j < m <= |s| && SuffixSettled(s, m) && LargestSoFar(s, j)
    ensures SuffixSettled(SweepResult(s, j, m), m - 1)
    ensures multiset(SweepResult(s, j, m)) == multiset(s)
    decreases m - j
  {
    if j + 1 == m {
      BubblePassEnd(s, m);
    } else {
      BubbleStep(s, m, j);
      if s[j] > s[j + 1] {
        SwappedPermutes(s, j, j + 1);
      }
      SweepSettles(CompareResult(s, j), j + 1, m);
    }
  }

  /** The uncancelled passes from pass `i` on, over an array whose last `i`
      cells are settled, leave a sorted permutation of it. */
  lemma {:induction false} BubbleResultFromSorts(s: seq<int>, i: nat)
    requires i <= |s| && SuffixSettled(s, |s| - i)
    ensures Sorted(BubbleResultFrom(s, i, 0)) && multiset(BubbleResultFrom(s, i, 0)) == multiset(s)
    decreases |s| - i
  {
    if i + 1 >= |s| {
      SuffixSettledSorted(s, |s| - i);
    } else {
      SweepSettles(s, 0, |s| - i);
      BubbleResultFromSorts(SweepResult(s, 0, |s| - i), i + 1);
    }
  }

  /** The array an uncancelled bubble sort leaves is its input sorted. */
  lemma BubbleResultSorts(s: seq<int>)
    ensures Sorted(BubbleResult(s)) && multiset(BubbleResult(s)) == multiset(s)
  {
    BubbleResultFromSorts(s, 0);
  }

  // Selection sort

  /** The array after pass `i`: the first minimum of `s[i..]` exchanged into
      position `i` unless it is already there. */
  function SelectionPassResult(s: seq<int>, i: nat): (r: seq<int>)
    requires i < |s|
    ensures |r| == |s|
  {
    var m := FirstMinIndex(s, i);
    if m != i then Swapped(s, i, m) else s
  }

  /** The array after passes `i` to `|s| - 2` of selection sort. */
  function SelectionPassesResult(s: seq<int>, i: nat): (r: seq<int>)
    ensures |r| == |s|
    decreases |s| - i
  {
    if i + 1 >= |s| then s else SelectionPassesResult(SelectionPassResult(s, i), i + 1)
  }

  /** The steps of the uncancelled run from the scan of pass `i` on: two polls
      for each of the `|s| - i - 1` comparisons of the scan, then the rest of
      the run from the pass's exchange. */
  function SelectionScanSteps(s: seq<int>, i: nat): seq<Step>
    decreases |s| - i, 1
  {
    if i + 1 >= |s| then [] else PollRun(2 * (|s| - i - 1)) + SelectionSwapSteps(s, i)
  }

  /** The steps of the uncancelled run from the exchange of pass `i` on: the
      exchange and the poll of the delay after it, when the minimum is not
      already in place, then the passes after `i`. */
  function SelectionSwapSteps(s: seq<int>, i: nat): seq<Step>
    requires i + 1 < |s|
    decreases |s| - i, 0
  {
    var m := FirstMinIndex(s, i);
    (if m != i then [Swap(Exchange(i, m, s[i], s[m]))] + [Poll] else []) +
    SelectionScanSteps(SelectionPassResult(s, i), i + 1)
  }

  /** Where the run from the scan of pass `i` ends under `token`, started
      after `p` polls with the log `log`: a poll of the scan that observes the
      cancellation ends it before any exchange of the pass. */
  function SelectionScanFrom(s: seq<int>, i: nat, token: CancellationToken, p: nat, log: seq<Exchange>): (r: Outcome)
    ensures |r.cells| == |s|
    decreases |s| - i, 1
  {
    if i + 1 >= |s| then Outcome(false, p, log, s)
    else
      var k := 2 * (|s| - i - 1);
      if token.CancelledAfter? && token.polls < p + k then Outcome(true, token.polls, log, s)
      else SelectionSwapFrom(s, i, token, p + k, log)
  }

  /** Where the run from the exchange of pass `i` ends under `token`: the
      first minimum of `s[i..]` is exchanged into position `i` when it lies
      elsewhere, and the poll after that exchange may still observe the
      cancellation. */
  function SelectionSwapFrom(s: seq<int>, i: nat, token: CancellationToken, p: nat, log: seq<Exchange>): (r: Outcome)
    requires i + 1 < |s|
    ensures |r.cells| == |s|
    decreases |s| - i, 0
  {
    var m := FirstMinIndex(s, i);
    if m == i then SelectionScanFrom(s, i + 1, token, p, log)
    else
      var t, log' := Swapped(s, i, m), log + [Exchange(i, m, s[i], s[m])];
      if Requested(token, p) then Outcome(true, p, log', t) else SelectionScanFrom(t, i + 1, token, p + 1, log')
  }

  /** What an uncancelled selection sort of `s` does, and the array it leaves. */
  function SelectionSchedule(s: seq<int>): seq<Step>
  {
    SelectionScanSteps(s, 0)
  }

  function SelectionResult(s: seq<int>): (r: seq<int>)
    ensures |r| == |s|
  {
    SelectionPassesResult(s, 0)
  }

  /** Where a selection sort of `s` under `token` ends. */
  function SelectionOutcome(s: seq<int>, token: CancellationToken): (r: Outcome)
    ensures |r.cells| == |s|
  {
    SelectionScanFrom(s, 0, token, 0, [])
  }

  /** The run from the scan of pass `i` under a token performs exactly the
      uncancelled steps from there before the poll that observes the
      cancellation: a cancellation within the scan's polls ends it before any
      exchange. */
  lemma {:induction false} SelectionScanFromRan(s: seq<int>, i: nat, token: CancellationToken,
                                                p: nat, log: seq<Exchange>)
    requires Unobserved(token, p)
    ensures var r := SelectionScanFrom(s, i, token, p, log);
            RanAs(SelectionScanSteps(s, i), token, p, r.cancelled, r.polls, log, r.log)
    decreases |s| - i, 1
  {
    if i + 1 >= |s| {
      RanNothing(token, p, log);
    } else {
      var k := 2 * (|s| - i - 1);
      var rest := SelectionSwapSteps(s, i);
      RanPollRun(k, token, p, log);
      if token.CancelledAfter? && token.polls < p + k {
        RanStopped(PollRun(k), rest, token, p, token.polls, log, log);
      } else {
        SelectionSwapFromRan(s, i, token, p + k, log);
        var r := SelectionSwapFrom(s, i, token, p + k, log);
        RanThen(PollRun(k), rest, token, r.cancelled, p, p + k, r.polls, log, log, r.log);
      }
    }
  }

  /** The run from the exchange of pass `i` under a token performs exactly
      the uncancelled steps from there before the poll that observes the
      cancellation: the exchange, when the minimum is out of place, happens
      before the poll that may observe it. */
  lemma {:induction false} SelectionSwapFromRan(s: seq<int>, i: nat, token: CancellationToken,
                                                p: nat, log: seq<Exchange>)
    requires i + 1 < |s| && Unobserved(token, p)
    ensures var r := SelectionSwapFrom(s, i, token, p, log);
            RanAs(SelectionSwapSteps(s, i), token, p, r.cancelled, r.polls, log, r.log)
    decreases |s| - i, 0
  {
    var m := FirstMinIndex(s, i);
    var t := SelectionPassResult(s, i);
    var rest := SelectionScanSteps(t, i + 1);
    if m == i {
      assert SelectionSwapSteps(s, i) == rest;
      SelectionScanFromRan(s, i + 1, token, p, log);
    } else {
      var e := Exchange(i, m, s[i], s[m]);
      var last := Requested(token, p);
      var p1 := if last then p else p + 1;
      RanSwap(e, token, p, log);
      RanPoll(token, p, log + [e]);
      RanThen([Swap(e)], [Poll], token, last, p, p, p1, log, log + [e], log + [e]);
      if last {
        RanStopped([Swap(e)] + [Poll], rest, token, p, p1, log, log + [e]);
      } else {
        SelectionScanFromRan(t, i + 1, token, p + 1, log + [e]);
        var r := SelectionScanFrom(t, i + 1, token, p + 1, log + [e]);
        RanThen([Swap(e)] + [Poll], rest, token, r.cancelled, p, p + 1, r.polls, log, log + [e], r.log);
      }
    }
  }

  /** A run from the scan of pass `i` that no poll cancelled leaves the array
      the uncancelled passes from there leave. */
  lemma {:induction false} SelectionScanFromCells(s: seq<int>, i: nat, token: CancellationToken,
                                                  p: nat, log: seq<Exchange>)
    ensures var r := SelectionScanFrom(s, i, token, p, log);
            !r.cancelled ==> r.cells == SelectionPassesResult(s, i)
    decreases |s| - i, 1
  {
    if i + 1 < |s| {
      var k := 2 * (|s| - i - 1);
      if !(token.CancelledAfter? && token.polls < p + k) {
        SelectionSwapFromCells(s, i, token, p + k, log);
      }
    }
  }

  /** A run from the exchange of pass `i` that no poll cancelled leaves the
      array the uncancelled passes after `i` leave once pass `i` is done. */
  lemma {:induction false} SelectionSwapFromCells(s: seq<int>, i: nat, token: CancellationToken,
                                                  p: nat, log: seq<Exchange>)
    requires i + 1 < |s|
    ensures var r := SelectionSwapFrom(s, i, token, p, log);
            !r.cancelled ==> r.cells == SelectionPassesResult(SelectionPassResult(s, i), i + 1)
    decreases |s| - i, 0
  {
    var m := FirstMinIndex(s, i);
    var t := SelectionPassResult(s, i);
    if m == i {
      SelectionScanFromCells(s, i + 1, token, p, log);
    } else if !Requested(token, p) {
      SelectionScanFromCells(t, i + 1, token, p + 1, log + [Exchange(i, m, s[i], s[m])]);
    }
  }

  /** What a selection sort of `s` under `token` promises: it performed
      exactly the steps of the uncancelled run before the poll that observed a
      cancellation, so its log is a prefix of the uncancelled log; it completes
      exactly when the token allows every poll of the uncancelled run, and
      then it leaves the uncancelled run's array and log; cancelled, it stopped
      at the token's poll with exactly the exchanges before that poll. */
  lemma SelectionOutcomeMeaning(s: seq<int>, token: CancellationToken)
    ensures var r, ev := SelectionOutcome(s, token), SelectionSchedule(s);
            RanAs(ev, token, 0, r.cancelled, r.polls, [], r.log) &&
            r.log <= SwapsOf(ev) &&
            (!r.cancelled <==> token == Never || PollsOf(ev) <= token.polls) &&
            (!r.cancelled ==> r.cells == SelectionResult(s) && r.polls == PollsOf(ev) && r.log == SwapsOf(ev)) &&
            (r.cancelled ==> token == CancelledAfter(r.polls) && r.polls < PollsOf(ev) &&
                             r.log == SwapsOf(Stop(ev, r.polls)))
  {
    var r, ev := SelectionOutcome(s, token), SelectionSchedule(s);
    SelectionScanFromRan(s, 0, token, 0, []);
    SelectionScanFromCells(s, 0, token, 0, []);
    RanMeaning(ev, token, 0, r.cancelled, r.polls, [], r.log);
  }

  /** The uncancelled passes from pass `i` on, over an array whose first `i`
      cells are settled, leave a sorted permutation of it. */
  lemma {:induction false} SelectionPassesSorts(s: seq<int>, i: nat)
    requires i <= |s| && PrefixSettled(s, i)
    ensures Sorted(SelectionPassesResult(s, i)) && multiset(SelectionPassesResult(s, i)) == multiset(s)
    decreases |s| - i
  {
    if i + 1 >= |s| {
      PrefixSettledSorted(s, i);
    } else {
      var m := FirstMinIndex(s, i);
      FirstMinIndexIsFirstMin(s, i);
      SelectionStep(s, i, m);
      SwappedPermutes(s, i, m);
      SelectionPassesSorts(SelectionPassResult(s, i), i + 1);
    }
  }

  /** The array an uncancelled selection sort leaves is its input sorted. */
  lemma SelectionResultSorts(s: seq<int>)
    ensures Sorted(SelectionResult(s)) && multiset(SelectionResult(s)) == multiset(s)
  {
    SelectionPassesSorts(s, 0);
  }

  /** Run to completion, the two sorts leave the same array. */
  lemma SortsAgree(s: seq<int>)
    ensures BubbleResult(s) == SelectionResult(s)
  {
    BubbleResultSorts(s);
    SelectionResultSorts(s);
    SortedPermutationUnique(BubbleResult(s), SelectionResult(s));
  }
}
