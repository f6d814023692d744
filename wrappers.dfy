/** Option and Result, the latter usable with `:-` to propagate a raised error. */
module Wrappers {

  datatype Option<+T> = None | Some(value: T)

  /** The value of a computation or the error it raised. */
  datatype Result<+R, +E> = Success(value: R) | Failure(error: E) {

    predicate IsFailure() {
      Failure?
    }

    function PropagateFailure<U>(): Result<U, E>
      requires Failure?
    {
      Failure(error)
    }

    function Extract(): R
      requires Success?
    {
      value
    }
  }
}
