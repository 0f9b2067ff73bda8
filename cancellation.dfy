/** Cooperative cancellation as the two sorting runs observe it.

    A run polls its token at fixed points (ThrowIfCancellationRequested and
    every cancellable delay). The token is modelled by its schedule: either
    nobody ever cancels, or the cancel button is pressed after a given number
    of polls have gone by. Once requested, a cancellation stays requested, so
    every later poll observes it too. */
module Cancellation {

  datatype CancellationToken =
    | Never
    | CancelledAfter(polls: nat)

  /** How a run ended: normally, or by observing a cancellation. */
  datatype Status = Completed | Cancelled

  /** The poll made after `passed` earlier polls observes the cancellation. */
  predicate Requested(token: CancellationToken, passed: nat)
  {
    token.CancelledAfter? && token.polls <= passed
  }

  /** None of the first `passed` polls has observed a cancellation. */
  predicate Unobserved(token: CancellationToken, passed: nat)
  {
    token.Never? || passed <= token.polls
  }
}
