/** Failure-compatible Option and Result types used by every other module. */
module Wrappers {

  datatype Option<+T> = None | Some(value: T)

  /** A Go panic or error return is modelled as a Failure. */
  datatype Result<+T, +E> = Success(value: T) | Failure(error: E) {

    predicate IsFailure() {
      Failure?
    }

    function PropagateFailure<U>(): Result<U, E>
      requires Failure?
    {
      Failure(error)
    }

    function Extract(): T
      requires Success?
    {
      value
    }
  }
}
