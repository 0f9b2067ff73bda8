/** The exchanges a sort performs, in the order it performs them.

    Each exchange is one call of SmoothSwap in the page: the two positions it
    animates, and the values they held just before the exchange. */
module SwapLog {

  datatype Exchange = Exchange(lo: nat, hi: nat, loValue: int, hiValue: int)

  /** `s` with the cells at `i` and `j` exchanged, as the page does through a temporary. */
  function Swapped(s: seq<int>, i: nat, j: nat): (r: seq<int>)
    requires i < |s| && j < |s|
    ensures |r| == |s|
  {
    s[i := s[j]][j := s[i]]
  }

  /** An exchange only moves values around. */
  lemma SwappedPermutes(s: seq<int>, i: nat, j: nat)
    requires i < |s| && j < |s|
    ensures multiset(Swapped(s, i, j)) == multiset(s)
  {
  }

  /** The exchange `e` describes two distinct cells of `s` and the values they hold. */
  predicate Matches(s: seq<int>, e: Exchange)
  {
    e.lo < e.hi < |s| && s[e.lo] == e.loValue && s[e.hi] == e.hiValue
  }

  /** `states` is the succession of array states a run went through and
      `log` the exchanges between them: exchange `k` matches state `k` and
      turns it into state `k + 1`. */
  predicate Chain(states: seq<seq<int>>, log: seq<Exchange>)
  {
    |states| == |log| + 1 &&
    forall k :: 0 <= k < |log| ==>
      Matches(states[k], log[k]) &&
      states[k + 1] == Swapped(states[k], log[k].lo, log[k].hi)
  }

  /** A run that started from `s0` and now holds `s` went through `states`,
      exchanging cells as `log` records. */
  predicate Trace(s0: seq<int>, states: seq<seq<int>>, log: seq<Exchange>, s: seq<int>)
  {
    Chain(states, log) && states[0] == s0 && states[|states| - 1] == s
  }

  /** Performing one more exchange that matches the current state extends a trace. */
  lemma TraceExtend(s0: seq<int>, states: seq<seq<int>>, log: seq<Exchange>, s: seq<int>,
                    e: Exchange)
    requires Trace(s0, states, log, s) && Matches(s, e)
    ensures Trace(s0, states + [Swapped(s, e.lo, e.hi)], log + [e], Swapped(s, e.lo, e.hi))
  {
  }

  /** The states of a trace are determined by its start and its log: two traces
      from the same start, one of whose logs extends the other, went through
      the same states as far as the shorter one goes. */
  lemma TracePrefix(s0: seq<int>, states0: seq<seq<int>>, log0: seq<Exchange>, s: seq<int>,
                    states: seq<seq<int>>, log: seq<Exchange>, t: seq<int>)
    requires Trace(s0, states0, log0, s) && Trace(s0, states, log, t) && log0 <= log
    ensures states0 <= states
  {
    forall k | 0 <= k < |states0|
      ensures states0[k] == states[k]
    {
      StatesAgree(states0, log0, states, log, k);
    }
  }

  lemma {:induction false} StatesAgree(states0: seq<seq<int>>, log0: seq<Exchange>,
                                       states: seq<seq<int>>, log: seq<Exchange>, k: nat)
    requires Chain(states0, log0) && Chain(states, log) && states0[0] == states[0]
    requires log0 <= log && k < |states0|
    ensures states0[k] == states[k]
    decreases k
  {
    if k > 0 {
      StatesAgree(states0, log0, states, log, k - 1);
      assert log0[k - 1] == log[k - 1];
    }
  }

  /** Exchanges only move values around: every state of a chain is a
      permutation of the first. */
  lemma {:induction false} ChainPermutes(states: seq<seq<int>>, log: seq<Exchange>, k: nat)
    requires Chain(states, log) && k < |states|
    ensures multiset(states[k]) == multiset(states[0])
    decreases k
  {
    if k > 0 {
      ChainPermutes(states, log, k - 1);
      assert states[k] == Swapped(states[k - 1], log[k - 1].lo, log[k - 1].hi);
      SwappedPermutes(states[k - 1], log[k - 1].lo, log[k - 1].hi);
    }
  }

  /** Every state a trace went through, its current one included, is a
      permutation of the state it started from. */
  lemma TracePermutes(s0: seq<int>, states: seq<seq<int>>, log: seq<Exchange>, s: seq<int>)
    requires Trace(s0, states, log, s)
    ensures forall k :: 0 <= k < |states| ==> multiset(states[k]) == multiset(s0)
    ensures multiset(s) == multiset(s0)
  {
    forall k | 0 <= k < |states|
      ensures multiset(states[k]) == multiset(s0)
    {
      ChainPermutes(states, log, k);
    }
  }
}
