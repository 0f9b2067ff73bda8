/** The visualization page: the algorithm it was opened with, the array it
    animates, regenerating that array, and the switch that starts the selected
    sort. Rendering, alerts, navigation and the start/cancel button's caption
    are not modelled; a Cancel click is the token's schedule. */
module Visualization {
  import opened Cancellation
  import opened Order
  import opened SwapLog
  import opened Events
  import opened Schedules
  import opened SortVisual

  datatype Option<T> = None | Some(value: T)

  /** The sorts the page implements. */
  datatype SortAlgorithm = BubbleSort | SelectionSort

  /** The name under which each sort is selected. */
  function DisplayName(alg: SortAlgorithm): string
  {
    match alg
    case BubbleSort => "Bubble Sort"
    case SelectionSort => "Selection Sort"
  }

  /** The switch over the selected name: exactly the two display names select a
      sort, and any other name (the other picker entries included) selects none. */
  function ParseAlgorithm(name: string): (r: Option<SortAlgorithm>)
    ensures forall alg :: r == Some(alg) <==> name == DisplayName(alg)
  {
    if name == "Bubble Sort" then Some(BubbleSort)
    else if name == "Selection Sort" then Some(SelectionSort)
    else None
  }

  /** Where a run of `alg` over `s` under `token` ends. */
  function SortOutcome(alg: SortAlgorithm, s: seq<int>, token: CancellationToken): (r: Outcome)
    ensures |r.cells| == |s|
  {
    match alg
    case BubbleSort => BubbleOutcome(s, token)
    case SelectionSort => SelectionOutcome(s, token)
  }

  /** The steps an uncancelled run of `alg` over `s` performs. */
  function SortSchedule(alg: SortAlgorithm, s: seq<int>): seq<Step>
  {
    match alg
    case BubbleSort => BubbleSchedule(s)
    case SelectionSort => SelectionSchedule(s)
  }

  /** A run of `alg` under `token` made a prefix of the uncancelled run's
      log, all of it and every poll when it completed; cancelled, it stopped
      before the uncancelled run's last poll with exactly the exchanges
      scheduled before the observing poll. */
  lemma SortOutcomeLog(alg: SortAlgorithm, s: seq<int>, token: CancellationToken)
    ensures var r, ev := SortOutcome(alg, s, token), SortSchedule(alg, s);
            r.log <= SwapsOf(ev) &&
            (!r.cancelled ==> r.polls == PollsOf(ev) && r.log == SwapsOf(ev)) &&
            (r.cancelled ==> r.polls < PollsOf(ev) && r.log == SwapsOf(Stop(ev, r.polls)))
  {
    match alg
    case BubbleSort => BubbleOutcomeMeaning(s, token);
    case SelectionSort => SelectionOutcomeMeaning(s, token);
  }

  /** What the page's random generator produces: ten values, each in 1..99. */
  predicate GeneratedShape(draws: seq<int>)
  {
    |draws| == 10 && forall k :: 0 <= k < |draws| ==> 1 <= draws[k] < 100
  }

  class VisualizationPage {
    var selectedAlgorithm: string
    var data: array<int>

    /** Opening the page records the selected name and generates a first array. */
    constructor (selectedAlgorithm: string, draws: seq<int>)
      requires GeneratedShape(draws)
      ensures this.selectedAlgorithm == selectedAlgorithm
      ensures fresh(data) && data[..] == draws && data.Length == 10
    {
      this.selectedAlgorithm := selectedAlgorithm;
      data := new int[0];
      new;
      OnGenerateArrayClicked(draws);
    }

    /** Replace the array by a new one holding the generator's draws. */
    method OnGenerateArrayClicked(draws: seq<int>)
      requires GeneratedShape(draws)
      modifies this
      ensures fresh(data) && data[..] == draws && data.Length == 10
      ensures selectedAlgorithm == old(selectedAlgorithm)
    {
      data := new int[|draws|](k requires 0 <= k < |draws| => draws[k]);
    }

    /** The Execute branch of the start/cancel handler: run the sort the selected
        name stands for on the page's array, in place. A name that selects no
        sort falls through the switch and leaves the array as it was. */
    method RunSelectedSort(token: CancellationToken) returns (status: Status, polls: nat, swaps: seq<Exchange>)
      modifies data
      ensures multiset(data[..]) == multiset(old(data[..]))
      ensures ParseAlgorithm(selectedAlgorithm) == None ==>
                status == Completed && polls == 0 && swaps == [] && data[..] == old(data[..])
      // the selected sort ran as its schedule says: it stopped at the poll
      // that observed a cancellation, having made exactly the exchanges the
      // schedule makes before that poll
      ensures ParseAlgorithm(selectedAlgorithm).Some? ==>
                Outcome(status == Cancelled, polls, swaps, data[..]) ==
                SortOutcome(ParseAlgorithm(selectedAlgorithm).value, old(data[..]), token)
      // so its log is a prefix of the uncancelled run's log, the whole of it
      // when the run completed; a cancelled run stopped before the uncancelled
      // run's last poll, having made exactly the exchanges scheduled before it
      ensures ParseAlgorithm(selectedAlgorithm).Some? ==>
                var ev := SortSchedule(ParseAlgorithm(selectedAlgorithm).value, old(data[..]));
                swaps <= SwapsOf(ev) &&
                (status == Completed ==> polls == PollsOf(ev) && swaps == SwapsOf(ev)) &&
                (status == Cancelled ==> polls < PollsOf(ev) && swaps == SwapsOf(Stop(ev, polls)))
      // whichever sort ran to completion, the array is the one sorted
      // permutation of what it held before
      ensures ParseAlgorithm(selectedAlgorithm) != None && status == Completed ==>
                Sorted(data[..]) &&
                forall t :: Sorted(t) && multiset(t) == multiset(old(data[..])) ==> t == data[..]
      ensures status == Cancelled ==> token.CancelledAfter?
      ensures token == Never ==> status == Completed
    {
      var passes;
      ghost var states;
      match ParseAlgorithm(selectedAlgorithm) {
        case Some(BubbleSort) =>
          status, polls, passes, swaps, states := BubbleSortVisual(data, token);
        case Some(SelectionSort) =>
          status, polls, passes, swaps, states := SelectionSortVisual(data, token);
        case None =>
          status, polls, swaps := Completed, 0, [];
      }
      if ParseAlgorithm(selectedAlgorithm).Some? {
        SortOutcomeLog(ParseAlgorithm(selectedAlgorithm).value, old(data[..]), token);
      }
      if ParseAlgorithm(selectedAlgorithm) != None && status == Completed {
        forall t | Sorted(t) && multiset(t) == multiset(old(data[..]))
          ensures t == data[..]
        {
          SortedPermutationUnique(t, data[..]);
        }
      }
    }
  }
}
