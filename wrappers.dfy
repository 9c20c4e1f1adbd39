/** Failure-compatible wrappers shared by every module: a missing value and
    the result of an operation that may raise. */
module Wrappers {

  /** A cell's value, or the absence of one (pandas' NaN, NaT and None). */
  datatype Option<+T> = None | Some(value: T)

  /** The outcome of a step that pandas could abort with an exception. */
  datatype Result<+R, +E> = Success(value: R) | Failure(error: E) {

    predicate IsFailure() {
      Failure?
    }

    function PropagateFailure<U>(): Result<U, E>
      requires Failure?
    {
      Failure(error)
    }

    function Extract(): R
      requires Success?
    {
      value
    }
  }
}
