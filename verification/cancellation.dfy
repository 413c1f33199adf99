/** Cooperative cancellation, as the iterative methods observe it.

    The library's long-running loops poll `ct.IsCancellationRequested`
    (a token that, when the caller passes none, fires after a five-second
    timer).  Wall-clock time is not modelled: a token is described by the
    poll from which it reports cancellation, counting polls from 0 in the
    order the method makes them.  Once requested, cancellation stays
    requested.
 */
module Cancellation {

  /** `Never` is a token that is never cancelled; `After(n)` answers true
      from its `n`-th poll on. */
  datatype Token = Never | After(polls: nat) {

    /** `IsCancellationRequested` at the given poll. */
    predicate Requested(poll: nat) {
      After? && poll >= polls
    }
  }

  /** The failure every cancelled method returns. */
  const CanceledError := "Method execution canceled"
}
