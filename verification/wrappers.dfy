/** Failure-compatible Option and Result types used throughout the model. */
module Wrappers {

  /** A value that may be absent; a missing table cell is `None`. */
  datatype Option<+T> = None | Some(value: T)

  /** The outcome of a stage that may raise: `Failure` carries the error. */
  datatype Result<+T, +E> = Success(value: T) | Failure(error: E) {

    predicate IsFailure() {
      Failure?
    }

    function PropagateFailure<U>(): Result<U, E>
      requires Failure?
    {
      Failure(error)
    }

    function Extract(): T
      requires Success?
    {
      value
    }
  }
}
