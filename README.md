# Sorting visualizer: the animated sorts, verified

The visualizer's page animates two in-place sorts of a small integer array:
bubble sort and selection sort. Between comparisons it highlights cells,
animates exchanges and waits, and the user can cancel a run at any of those
waits. This project models that page's sorting core in Dafny:

- `BubbleSortVisual` and `SelectionSortVisual` are methods on an `array<int>`.
  They keep the source's loops, its strict comparisons and its exchange
  through a temporary. They also keep every cancellation point.
- Each loop level is its own method:
  - the outer loops are `BubblePasses` and `SelectionPasses`;
  - one outer pass is `BubblePass` or `SelectionPass`;
  - bubble sort's inner iteration is `BubbleCompare`;
  - selection sort's inner scan is `ScanForMin`.
  `BubbleSortVisual` and `SelectionSortVisual` run the outer loop, then state
  what the run achieved.
- Cancellation is a token schedule. `Never` is a token that is never
  cancelled. `CancelledAfter(n)` is a token whose cancellation is observed by
  every poll after the first `n`. Each `ThrowIfCancellationRequested` and
  each cancellable `Task.Delay` is one poll. When a poll observes the
  cancellation, the sort returns `Cancelled` instead of throwing.
- Every run reports:
  - its status;
  - the number of polls that passed;
  - the number of outer passes it finished;
  - the exchanges it performed (the `SmoothSwap` calls: two positions and the
    values they held).
  As ghost state, a run also returns the succession of array states those
  exchanges went through. So at every exit, cancelled or not, the array is
  tied to its input by exactly the logged exchanges.
- The page is a class. It holds the selected algorithm name and the array.
  Its methods are opening the page, generating a new array, and the Execute
  branch of the start/cancel handler, which dispatches on the name.
- Each sort also has a schedule: the sequence of steps an uncancelled run
  performs, polls and exchanges, which depends on the input array alone. A
  second function gives where a run under a token ends: whether it was
  cancelled, the polls that passed, the exchange log and the array. Lemmas
  prove that a run under any token performs exactly the steps of the
  schedule before the poll that observes the cancellation and nothing after
  it. The sort methods are proved to end exactly where that function says.

Modules:
- `Cancellation`: the token schedule and the status.
- `SwapLog`: exchanges and chains of array states.
- `Order`: sortedness, settled prefixes and suffixes, the first minimum, and
  the step lemmas that settle one more cell.
- `Events`: schedules of steps, and how much of a schedule a token lets a
  run perform.
- `Schedules`: the schedule, the uncancelled result and the outcome under a
  token of each sort, and the lemmas relating them.
- `SortVisual`: the two sorts on an array.
- `Visualization`: the dispatch and the page.

A common variant of bubble sort stops after a pass without exchanges. This
code has no such exit: it always runs all `Length - 1` outer passes.
`BubbleSortVisual` proves that a completed run performed exactly
`Length - 1` passes (none for an empty array).

Each comparison polls the token twice: once in `ThrowIfCancellationRequested`
and once in the wait after the highlight. Each exchange polls once more, in
the wait after the animation. So a completed run over `n` cells polled exactly
`n * (n - 1)` times plus once per exchange. A cancellation requested before
that many polls always ends the run as `Cancelled`.

## Model

| member | source | states |
|---|---|---|
| SwapLog.SwappedPermutes | VisualizationPage.xaml.cs:107-109 | exchanging two cells through a temporary leaves the multiset of values unchanged |
| SwapLog.TraceExtend | VisualizationPage.xaml.cs:104-112 | performing one more exchange that matches the current state extends a trace by that exchange and the state it produces |
| SwapLog.TracePrefix | VisualizationPage.xaml.cs:104-150 | for the exchanges of either sort (lines 104-110 and 145-150), the states a run went through are fixed by its start and its exchanges: when one log extends another from the same start, its states extend the other's states |
| SwapLog.ChainPermutes | VisualizationPage.xaml.cs:104-110 | every state reached by a chain of logged exchanges is a permutation of the first state |
| SwapLog.TracePermutes | VisualizationPage.xaml.cs:104-150 | for the exchanges of either sort (lines 104-110 and 145-150), a run traced from an input by logged exchanges leaves every intermediate state and the final array a permutation of the input |
| Order.SuffixSettledSorted | VisualizationPage.xaml.cs:94-123 | once bubble sort has settled everything from position 1 (or 0) on, the whole array is sorted |
| Order.PrefixSettledSorted | VisualizationPage.xaml.cs:128-163 | once selection sort has settled everything before the last position, the whole array is sorted |
| Order.BubbleStep | VisualizationPage.xaml.cs:104-110 | exchanging a strictly inverted pair `j, j+1` keeps the settled suffix and carries the largest value seen so far to `j+1`; not exchanging an ordered pair also leaves the largest value at `j+1` |
| Order.BubblePassEnd | VisualizationPage.xaml.cs:96-119 | at the end of an inner loop the last unsettled cell holds the largest unsettled value, so the settled suffix grows by the cell highlighted as sorted |
| Order.FirstMinIndex | VisualizationPage.xaml.cs:130-143 | the first position of the minimum of `s[from..]` lies in `from..|s|-1` |
| Order.FirstMinIndexIsFirstMin | VisualizationPage.xaml.cs:130-143 | the index `FirstMinIndex` finds holds a value at most every value of `s[from..]` and strictly below every value before it there, so it is the first position of the minimum |
| Order.SelectionStep | VisualizationPage.xaml.cs:145-150 | exchanging the minimum of the suffix into position `i` extends the settled prefix by one cell |
| Order.SortedPermutationUnique | VisualizationPage.xaml.cs:67-75 | two sorted permutations of the same values are equal, so both sorts, when they complete, leave the same array |
| Events.PollRunCounts | VisualizationPage.xaml.cs:131-143 | a run of `k` polls holds `k` polls and no exchange |
| Events.StopShape | VisualizationPage.xaml.cs:98-114 | the steps before a given poll are a prefix of the schedule, the whole schedule when it has no more polls, and hold exactly the polls before that one |
| Events.StopAppend | VisualizationPage.xaml.cs:98-114 | stopping a schedule made of two parts at a poll stops the first part, or runs it whole and stops the second at the remaining polls |
| Events.RanPoll | VisualizationPage.xaml.cs:98-102 | one poll (lines 98, 102, 114, 133, 137 and 155) observes the cancellation exactly when the token has fired before it, and otherwise passes |
| Events.RanSwap | VisualizationPage.xaml.cs:107-112 | an exchange (here and at lines 148-153) always happens once reached, and is appended to the log |
| Events.RanThen | VisualizationPage.xaml.cs:94-120 | a run of one part that passed every poll followed by a run of the next part is a run of the two parts together |
| Events.RanStopped | VisualizationPage.xaml.cs:94-120 | a run cancelled within one part does nothing of the parts after it |
| Events.RanPollRun | VisualizationPage.xaml.cs:131-143 | `k` polls in a row observe the cancellation exactly when the token fires within them, and then the run stops at the token's poll with the log unchanged |
| Events.RanMeaning | VisualizationPage.xaml.cs:77-80 | a run of a schedule made a prefix of the schedule's exchanges; uncancelled, it made all of them and every poll; cancelled, the token fired before the schedule's last poll, the run stopped at exactly that poll and made exactly the exchanges before it |
| Schedules.CompareOutcomeRan | VisualizationPage.xaml.cs:98-115 | one comparison under a token performs exactly its steps before the observing poll: the exchange happens only after both polls before it passed and only for a strictly inverted pair, and the poll after it may still observe the cancellation; uncancelled, it leaves the compared-and-exchanged array |
| Schedules.BubbleFromRan | VisualizationPage.xaml.cs:94-120 | the run from any comparison of any pass under a token performs exactly the uncancelled steps from there before the observing poll |
| Schedules.BubbleFromCells | VisualizationPage.xaml.cs:94-120 | a run from any comparison that no poll cancelled leaves the array the uncancelled passes from there leave, one sweep per pass |
| Schedules.BubbleOutcomeMeaning | VisualizationPage.xaml.cs:92-124 | a bubble sort under a token made a prefix of the uncancelled log; it completes exactly when the token allows every poll of the uncancelled run, and then it leaves the uncancelled array, polls and log; cancelled, it stopped at the token's poll, below the uncancelled run's total, with exactly the exchanges made before that poll |
| Schedules.SweepSettles | VisualizationPage.xaml.cs:96-119 | one uncancelled pass over the unsettled part carries its largest value to its last cell, settling one more cell, and only moves values around |
| Schedules.BubbleResultFromSorts | VisualizationPage.xaml.cs:94-120 | the uncancelled passes from pass `i` on leave a sorted permutation of an array whose last `i` cells are settled |
| Schedules.BubbleResultSorts | VisualizationPage.xaml.cs:92-124 | the array an uncancelled bubble sort leaves is a sorted permutation of its input |
| Schedules.SelectionScanFromRan | VisualizationPage.xaml.cs:128-143 | the run from the scan of any pass under a token performs exactly the uncancelled steps from there before the observing poll: a cancellation observed within the scan's polls ends it before any exchange of that pass |
| Schedules.SelectionSwapFromRan | VisualizationPage.xaml.cs:145-156 | the run from the exchange of any pass performs exactly the uncancelled steps from there before the observing poll: the exchange, made only when the first minimum is out of place, comes before the poll that may observe the cancellation |
| Schedules.SelectionScanFromCells | VisualizationPage.xaml.cs:128-160 | a run from the scan of any pass that no poll cancelled leaves the array the uncancelled passes from there leave |
| Schedules.SelectionSwapFromCells | VisualizationPage.xaml.cs:145-160 | a run from the exchange of any pass that no poll cancelled leaves the array the uncancelled passes leave once that pass is done |
| Schedules.SelectionOutcomeMeaning | VisualizationPage.xaml.cs:126-164 | a selection sort under a token made a prefix of the uncancelled log; it completes exactly when the token allows every poll of the uncancelled run, and then it leaves the uncancelled array, polls and log; cancelled, it stopped at the token's poll, below the uncancelled run's total, with exactly the exchanges made before that poll |
| Schedules.SelectionPassesSorts | VisualizationPage.xaml.cs:128-160 | the uncancelled passes from pass `i` on leave a sorted permutation of an array whose first `i` cells are settled |
| Schedules.SelectionResultSorts | VisualizationPage.xaml.cs:126-164 | the array an uncancelled selection sort leaves is a sorted permutation of its input |
| Schedules.SortsAgree | VisualizationPage.xaml.cs:67-75 | run to completion, bubble sort and selection sort leave the same array |
| SortVisual.ComparisonsClosedForm | VisualizationPage.xaml.cs:94-96 | the first `passes` outer passes over `n` cells, pass `p` comparing `n - p - 1` pairs, compare `passes * (2n - passes - 1) / 2` pairs in all |
| SortVisual.AllComparisons | VisualizationPage.xaml.cs:128-131 | all `n - 1` outer passes together compare `n * (n - 1) / 2` pairs |
| SortVisual.SwapCells | VisualizationPage.xaml.cs:107-109 | the in-place exchange through `temp` turns the array into `Swapped` of its old contents |
| SortVisual.BubbleCompare | VisualizationPage.xaml.cs:98-115 | one inner iteration ends exactly where `CompareOutcome` says: cancelled at the first observing poll, with the pair exchanged only if both polls before the exchange passed and `a[j] > a[j+1]`; otherwise the run goes on from the next comparison on the compared-and-exchanged array; it keeps the trace, the earlier states, the settled suffix and carries the running maximum to `j+1` |
| SortVisual.BubblePass | VisualizationPage.xaml.cs:96-119 | one inner loop carries the run on as `BubbleFrom` says: a cancelled pass ends the run where it stands, and a full pass leaves exactly the array of one sweep over the unsettled part, after two polls per comparison plus one per exchange; it keeps the earlier log as a prefix, exchanges only strictly inverted adjacent pairs and settles one more cell at the end unless cancelled |
| SortVisual.BubblePasses | VisualizationPage.xaml.cs:94-120 | the outer loop ends where `BubbleOutcome` of its input says; it keeps the trace and the settled suffix; a completed loop ran `Length - 1` passes and polled exactly `2 * Comparisons(Length, passes)` times plus once per exchange |
| SortVisual.BubbleSortVisual | VisualizationPage.xaml.cs:92-124 | the run ends exactly where `BubbleOutcome` of its input under the token says, and a completed run leaves `BubbleResult` of its input; at every exit the array is a permutation of its input reached by the logged exchanges, each of two adjacent cells with the left value strictly larger; the last `passes` cells are settled; a completed run is sorted after exactly `Length - 1` passes and `Length * (Length - 1)` polls plus one per exchange, so a cancellation requested before that many polls always ends the run; cancellation is reported exactly at the first observing poll; arrays of length 0 or 1 complete untouched without polling |
| SortVisual.ScanForMin | VisualizationPage.xaml.cs:130-143 | the inner scan is cancelled exactly when the token fires within its two polls per compared cell; otherwise it returns the first index of the minimum of `a[i..]` (`FirstMinIndex`); it only reads the array |
| SortVisual.ForwardExchangesCount | VisualizationPage.xaml.cs:145-156 | exchanges that fill strictly increasing positions below a bound number at most that bound: at most one exchange per pass |
| SortVisual.SelectionPass | VisualizationPage.xaml.cs:130-156 | one outer pass carries the run on as `SelectionScanFrom` says: a cancellation observed in the scan ends the run before any exchange, one observed by the poll after the exchange ends it after that exchange, and otherwise the run goes on from the next pass; the new array is the old one, or `Swapped(old, i, FirstMinIndex(old, i))` when an exchange was logged; unless cancelled it exchanges exactly when the first minimum of `a[i..]` is not at `i` and settles one more cell at the front; each logged exchange brings a strictly smaller value forward from the first minimum of its suffix |
| SortVisual.SelectionPasses | VisualizationPage.xaml.cs:128-160 | the outer loop ends where `SelectionOutcome` of its input says; it keeps the trace, the settled prefix and a log of forward exchanges from first minima, one per pass at most; a completed loop ran `Length - 1` passes and polled exactly `2 * Comparisons(Length, passes)` times plus once per exchange |
| SortVisual.SelectionSortVisual | VisualizationPage.xaml.cs:126-164 | the run ends exactly where `SelectionOutcome` of its input under the token says, and a completed run leaves `SelectionResult` of its input; at every exit the array is a permutation of its input reached by the logged exchanges; each exchange brings a strictly smaller value forward into the position of its pass from the first position of the minimum of the suffix, at most one per pass; the first `passes` cells are settled; a completed run is sorted after `Length - 1` passes and `Length * (Length - 1)` polls plus one per exchange, so a cancellation requested before that many polls always ends the run; cancellation is reported exactly at the first observing poll; arrays of length 0 or 1 complete untouched without polling |
| Visualization.ParseAlgorithm | VisualizationPage.xaml.cs:67-75 | the switch selects a sort exactly for the two display names "Bubble Sort" and "Selection Sort"; every other name selects none |
| Visualization.VisualizationPage.constructor | VisualizationPage.xaml.cs:16-24 | opening the page records the selected name and generates a first array of ten draws |
| Visualization.VisualizationPage.OnGenerateArrayClicked | VisualizationPage.xaml.cs:36-41 | the page's array is replaced by a new array holding the draws, and the selected name is kept |
| Visualization.SortOutcomeLog | VisualizationPage.xaml.cs:67-80 | a run of either sort under a token made a prefix of the uncancelled run's exchange log, all of it and exactly the uncancelled run's polls when it completed; cancelled, it stopped before the uncancelled run's last poll with exactly the exchanges scheduled before the observing poll |
| Visualization.VisualizationPage.RunSelectedSort | VisualizationPage.xaml.cs:58-90 | running the selected sort ends exactly where `SortOutcome` of the selected sort says, with its status, polls, log and array: its log is a prefix of that sort's uncancelled log, the whole of it when completed, and when cancelled exactly the exchanges scheduled before the observing poll, which comes before the uncancelled run's last poll; it permutes the page's array; a name that selects no sort leaves it untouched, polls nothing and completes; a completed sort leaves the unique sorted permutation; a run without cancellation always completes |

## Left out

- Rendering (`UpdateVisualizationGrid`, `InitializeVisualizationGrid`, labels and colours) is user-interface work that does not touch the array.
- `SmoothSwap` is a floating-point animation; the model keeps only its call, as an entry of the exchange log.
- `Task.Delay` timing and `async` scheduling are left out; each cancellable wait is one poll of the token and nothing runs concurrently.
- RunSelectedSort: assumes no Generate Array click during a run's waits. Such a click replaces `_data` (line 39), while the running sort goes on with the old array it was handed (lines 70 and 73). So a completed run sorts that old array, and the page's new array stays unsorted.
- The Cancel branch of the start/cancel handler (lines 86-89) is modelled only through the token's schedule: the poll after which cancellation becomes visible is a parameter.
- The `OperationCanceledException`, its alert and the start/cancel button's caption are left out; a cancelled run returns the `Cancelled` status instead.
- `System.Random` is not modelled: the generated values are a parameter whose shape (ten values in 1..99) is a precondition.
- `GetAlgorithmDescription` is a fixed text lookup for a label and is left out.
- `MainPage.xaml.cs` (the picker and the navigation to this page) is left out. The names it offers besides the two sorts select no sort in `ParseAlgorithm`.
- Merge sort, quick sort and insertion sort are not modelled: the page has no implementation of them.
- Array values are unbounded integers. The sorts only compare and move values, so the source's 32-bit `int` cannot overflow there.
