/** The Option type, and the failure-compatible Result type used with `:-`. */
module Wrappers {

  /** `None` plays the part of Python's `None` result. */
  datatype Option<+T> = None | Some(value: T)

  /** A Python function that either returns a value or raises. */
  datatype Result<+R, +E> = Success(value: R) | Failure(error: E) {

    predicate IsFailure() {
      Failure?
    }

    function PropagateFailure<U>(): Result<U, E>
      requires Failure?
    {
      Failure(error)
    }

    function Extract(): R
      requires Success?
    {
      value
    }
  }
}
