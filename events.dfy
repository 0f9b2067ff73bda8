/** The schedule of a sorting run and how much of it a cancelled run performs.

    An uncancelled run performs a fixed sequence of steps, determined by the
    input array alone: polls of the token and exchanges of two cells. A run
    whose token is cancelled performs that same sequence up to the poll that
    observes the cancellation, and nothing after it. */
module Events {
  import opened Cancellation
  import opened SwapLog

  /** One step of a run: a poll of the token (ThrowIfCancellationRequested or
      a cancellable delay), or an exchange of two cells (SmoothSwap). */
  datatype Step = Poll | Swap(e: Exchange)

  /** The number of polls in `ev`. */
  function PollsOf(ev: seq<Step>): nat
  {
    if ev == [] then 0 else (if ev[0].Poll? then 1 else 0) + PollsOf(ev[1..])
  }

  /** The exchanges in `ev`, in order. */
  function SwapsOf(ev: seq<Step>): seq<Exchange>
  {
    if ev == [] then [] else (if ev[0].Swap? then [ev[0].e] else []) + SwapsOf(ev[1..])
  }

  /** `k` polls in a row. */
  function PollRun(k: nat): seq<Step>
  {
    if k == 0 then [] else [Poll] + PollRun(k - 1)
  }

  /** The steps of `ev` before its poll number `p + 1`. */
  function Stop(ev: seq<Step>, p: nat): seq<Step>
  {
    if ev == [] || (ev[0].Poll? && p == 0) then []
    else [ev[0]] + Stop(ev[1..], if ev[0].Poll? then p - 1 else p)
  }

  /** The steps of schedule `ev` a run performs under `token`, once `passed`
      polls have gone by before it starts. */
  function Performed(ev: seq<Step>, token: CancellationToken, passed: nat): seq<Step>
  {
    match token
    case Never => ev
    case CancelledAfter(n) => Stop(ev, if passed <= n then n - passed else 0)
  }

  /** Some poll of `ev` observes the cancellation. */
  predicate Interrupted(ev: seq<Step>, token: CancellationToken, passed: nat)
  {
    token.CancelledAfter? && token.polls < passed + PollsOf(ev)
  }

  /** A run with schedule `ev`, started after `passed` polls with the exchange
      log `log0`, ended after `polls` polls with the log `log`, and reported
      `cancelled`: it performed exactly the steps of `ev` before the poll that
      observed the cancellation, and was cancelled exactly when such a poll
      exists. */
  predicate RanAs(ev: seq<Step>, token: CancellationToken, passed: nat, cancelled: bool,
                  polls: nat, log0: seq<Exchange>, log: seq<Exchange>)
  {
    Unobserved(token, passed) &&
    var done := Performed(ev, token, passed);
    polls == passed + PollsOf(done) && log == log0 + SwapsOf(done) &&
    (cancelled <==> Interrupted(ev, token, passed))
  }

  lemma {:induction false} PollsOfAppend(a: seq<Step>, b: seq<Step>)
    ensures PollsOf(a + b) == PollsOf(a) + PollsOf(b)
  {
    if a == [] {
      assert a + b == b;
    } else {
      assert (a + b)[1..] == a[1..] + b;
      PollsOfAppend(a[1..], b);
    }
  }

  lemma {:induction false} SwapsOfAppend(a: seq<Step>, b: seq<Step>)
    ensures SwapsOf(a + b) == SwapsOf(a) + SwapsOf(b)
  {
    if a == [] {
      assert a + b == b;
    } else {
      assert (a + b)[1..] == a[1..] + b;
      SwapsOfAppend(a[1..], b);
      var x := if a[0].Swap? then [a[0].e] else [];
      assert x + (SwapsOf(a[1..]) + SwapsOf(b)) == (x + SwapsOf(a[1..])) + SwapsOf(b);
    }
  }

  lemma AppendAssociates<T>(a: seq<T>, b: seq<T>, c: seq<T>)
    ensures (a + b) + c == a + (b + c)
  {
  }

  lemma {:induction false} PollRunCounts(k: nat)
    ensures PollsOf(PollRun(k)) == k && SwapsOf(PollRun(k)) == []
  {
    if k > 0 {
      PollRunCounts(k - 1);
    }
  }

  /** Stopping a schedule made of two parts: the first part runs whole when
      its polls fit the allowance, and then the second part gets the rest. */
  lemma {:induction false} StopAppend(a: seq<Step>, b: seq<Step>, p: nat)
    ensures Stop(a + b, p) == if PollsOf(a) <= p then a + Stop(b, p - PollsOf(a)) else Stop(a, p)
  {
    if a == [] {
      assert a + b == b;
    } else {
      assert (a + b)[0] == a[0];
      assert (a + b)[1..] == a[1..] + b;
      if !(a[0].Poll? && p == 0) {
        StopAppend(a[1..], b, if a[0].Poll? then p - 1 else p);
        if PollsOf(a) <= p {
          assert [a[0]] + (a[1..] + Stop(b, p - PollsOf(a))) == a + Stop(b, p - PollsOf(a));
        }
      }
    }
  }

  /** A stopped schedule is a prefix of the schedule with as many polls as the
      allowance, or all of them when the allowance covers the schedule. */
  lemma {:induction false} StopShape(ev: seq<Step>, p: nat)
    ensures Stop(ev, p) <= ev
    ensures PollsOf(ev) <= p ==> Stop(ev, p) == ev
    ensures PollsOf(Stop(ev, p)) == if PollsOf(ev) <= p then PollsOf(ev) else p
  {
    if ev != [] && !(ev[0].Poll? && p == 0) {
      StopShape(ev[1..], if ev[0].Poll? then p - 1 else p);
      assert ([ev[0]] + Stop(ev[1..], if ev[0].Poll? then p - 1 else p))[1..]
          == Stop(ev[1..], if ev[0].Poll? then p - 1 else p);
      if PollsOf(ev) <= p {
        assert [ev[0]] + ev[1..] == ev;
      }
    }
  }

  lemma {:induction false} SwapsOfPrefix(a: seq<Step>, b: seq<Step>)
    requires a <= b
    ensures SwapsOf(a) <= SwapsOf(b)
  {
    assert b == a + b[|a|..];
    SwapsOfAppend(a, b[|a|..]);
  }

  /** An empty schedule ends where it starts. */
  lemma RanNothing(token: CancellationToken, passed: nat, log: seq<Exchange>)
    requires Unobserved(token, passed)
    ensures RanAs([], token, passed, false, passed, log, log)
  {
  }

  /** Running one poll: it observes the cancellation, or it passes. */
  lemma RanPoll(token: CancellationToken, passed: nat, log: seq<Exchange>)
    requires Unobserved(token, passed)
    ensures RanAs([Poll], token, passed, Requested(token, passed),
                  if Requested(token, passed) then passed else passed + 1, log, log)
  {
    assert PollsOf([Poll]) == 1 && SwapsOf([Poll]) == [] by {
      assert [Poll][1..] == [];
    }
    if Requested(token, passed) {
      assert Performed([Poll], token, passed) == [];
    } else {
      assert Performed([Poll], token, passed) == [Poll] by {
        if token.CancelledAfter? {
          var k := token.polls - passed;
          assert [Poll][1..] == [] && Stop([], k - 1) == [];
          assert Stop([Poll], k) == [Poll] + Stop([Poll][1..], k - 1);
        }
      }
    }
    assert log + [] == log;
  }

  /** Running one exchange: it is appended to the log. */
  lemma RanSwap(e: Exchange, token: CancellationToken, passed: nat, log: seq<Exchange>)
    requires Unobserved(token, passed)
    ensures RanAs([Swap(e)], token, passed, false, passed, log, log + [e])
  {
    assert PollsOf([Swap(e)]) == 0 && SwapsOf([Swap(e)]) == [e] by {
      assert [Swap(e)][1..] == [];
    }
    assert Performed([Swap(e)], token, passed) == [Swap(e)] by {
      if token.CancelledAfter? {
        var k := token.polls - passed;
        assert [Swap(e)][1..] == [] && Stop([], k) == [];
        assert Stop([Swap(e)], k) == [Swap(e)] + Stop([Swap(e)][1..], k);
      }
    }
  }

  /** A run that went through `ev1` uncancelled and then ran `ev2` ran `ev1 + ev2`. */
  lemma RanThen(ev1: seq<Step>, ev2: seq<Step>, token: CancellationToken, cancelled: bool,
                p0: nat, p1: nat, p2: nat, log0: seq<Exchange>, log1: seq<Exchange>, log2: seq<Exchange>)
    requires RanAs(ev1, token, p0, false, p1, log0, log1)
    requires RanAs(ev2, token, p1, cancelled, p2, log1, log2)
    ensures RanAs(ev1 + ev2, token, p0, cancelled, p2, log0, log2)
  {
    // the first part ran whole, and the second part ran what it left
    var done2 := Performed(ev2, token, p1);
    assert Performed(ev1, token, p0) == ev1 by {
      if token.CancelledAfter? {
        StopShape(ev1, token.polls - p0);
      }
    }
    PollsOfAppend(ev1, ev2);
    assert Performed(ev1 + ev2, token, p0) == ev1 + done2 by {
      if token.CancelledAfter? {
        StopAppend(ev1, ev2, token.polls - p0);
      }
    }
    PollsOfAppend(ev1, done2);
    SwapsOfAppend(ev1, done2);
    AppendAssociates(log0, SwapsOf(ev1), SwapsOf(done2));
  }

  /** A run cancelled inside `ev1` does nothing of what follows it. */
  lemma RanStopped(ev1: seq<Step>, ev2: seq<Step>, token: CancellationToken,
                   p0: nat, p1: nat, log0: seq<Exchange>, log1: seq<Exchange>)
    requires RanAs(ev1, token, p0, true, p1, log0, log1)
    ensures RanAs(ev1 + ev2, token, p0, true, p1, log0, log1)
  {
    PollsOfAppend(ev1, ev2);
    StopAppend(ev1, ev2, token.polls - p0);
  }

  /** `k` polls in a row, run from `passed`, observe the cancellation exactly
      when the token fires within them, and otherwise all pass. */
  lemma {:induction false} RanPollRun(k: nat, token: CancellationToken, passed: nat, log: seq<Exchange>)
    requires Unobserved(token, passed)
    ensures var cancelled := token.CancelledAfter? && token.polls < passed + k;
            RanAs(PollRun(k), token, passed, cancelled,
                  if cancelled then token.polls else passed + k, log, log)
  {
    if k == 0 {
      RanNothing(token, passed, log);
    } else {
      RanPoll(token, passed, log);
      if Requested(token, passed) {
        RanStopped([Poll], PollRun(k - 1), token, passed, passed, log, log);
      } else {
        RanPollRun(k - 1, token, passed + 1, log);
        RanThen([Poll], PollRun(k - 1), token, token.CancelledAfter? && token.polls < passed + k,
                passed, passed + 1, if token.CancelledAfter? && token.polls < passed + k then token.polls else passed + k,
                log, log, log);
      }
    }
  }

  /** What a run of a schedule promises: its log is a prefix of the whole
      schedule's log; uncancelled, it made every exchange and every poll;
      cancelled, the token fired before the schedule's last poll, the run
      stopped at exactly that poll and made exactly the exchanges before it. */
  lemma RanMeaning(ev: seq<Step>, token: CancellationToken, passed: nat, cancelled: bool,
                   polls: nat, log0: seq<Exchange>, log: seq<Exchange>)
    requires RanAs(ev, token, passed, cancelled, polls, log0, log)
    ensures log <= log0 + SwapsOf(ev)
    ensures !cancelled ==> polls == passed + PollsOf(ev) && log == log0 + SwapsOf(ev)
    ensures cancelled ==> token == CancelledAfter(polls) && polls < passed + PollsOf(ev)
                          && log == log0 + SwapsOf(Stop(ev, polls - passed))
    ensures Unobserved(token, polls)
  {
    if token.CancelledAfter? {
      StopShape(ev, token.polls - passed);
      SwapsOfPrefix(Stop(ev, token.polls - passed), ev);
    }
  }
}
