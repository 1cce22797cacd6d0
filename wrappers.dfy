/** Optional values and results with an error, as used by the checker. */
module Wrappers {

  /** A value that may be absent: a missing "inputs" entry, a verdict without a counterexample. */
  datatype Option<+T> = None | Some(value: T)

  /** The outcome of an operation that can raise an error. */
  datatype Result<+T, +E> = Success(value: T) | Failure(error: E)
}
