/** Values shared by the retry wrappers: optional values, the outcome of one
    invocation of a wrapped operation, and the index at which a run of
    retryable failures stops. */
module Outcomes {

  datatype Option<T> = None | Some(value: T)

  /** What one call of an opaque zero-argument operation did: it returned a
      value or it raised an error. */
  datatype Outcome<T, E> = Returned(value: T) | Raised(error: E)

  /** The call raised an error that the wrapper is configured to catch. */
  predicate FailsWith<T, E>(o: Outcome<T, E>, catches: E -> bool)
  {
    o.Raised? && catches(o.error)
  }

  /** The number of leading outcomes among the first `limit` that raise a
      caught error: the index of the first attempt that ends the run, or
      `limit` when every attempt raised a caught error. */
  function FirstStop<T, E>(script: seq<Outcome<T, E>>, catches: E -> bool, limit: nat): (k: nat)
    requires limit <= |script|
    ensures k <= limit
    ensures forall i :: 0 <= i < k ==> FailsWith(script[i], catches)
    ensures k < limit ==> !FailsWith(script[k], catches)
  {
    if limit == 0 || !FailsWith(script[0], catches) then 0
    else 1 + FirstStop(script[1..], catches, limit - 1)
  }

  /** The contract of FirstStop pins it down: any index with the same two
      properties is FirstStop. */
  lemma FirstStopUnique<T, E>(script: seq<Outcome<T, E>>, catches: E -> bool, limit: nat, j: nat)
    requires limit <= |script| && j <= limit
    requires forall i :: 0 <= i < j ==> FailsWith(script[i], catches)
    requires j < limit ==> !FailsWith(script[j], catches)
    ensures FirstStop(script, catches, limit) == j
  {
  }
}
