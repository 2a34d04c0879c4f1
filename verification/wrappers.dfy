/** Failure-carrying return values used throughout the model. */
module Wrappers {

  /** A value that may be absent, such as the colour of an unmapped gender code. */
  datatype Option<+T> = None | Some(value: T)

  /** The outcome of a step that can stop the whole pass with an error. */
  datatype Result<+R, +E> = Success(value: R) | Failure(error: E) {

    predicate IsFailure() {
      Failure?
    }

    function PropagateFailure<U>(): Result<U, E>
      requires Failure?
    {
      Failure(error)
    }

    function Extract(): R
      requires Success?
    {
      value
    }
  }
}
