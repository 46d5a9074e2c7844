/** The two failure-carrying wrappers the model uses in place of Python's None and exceptions. */
module Outcomes {

  datatype Option<T> = None | Some(value: T)

  /** A value or the exception that was raised instead; usable with `:-`. */
  datatype Result<T, E> = Success(value: T) | Failure(error: E) {

    predicate IsFailure() {
      Failure?
    }

    function PropagateFailure<U>(): Result<U, E>
      requires Failure?
    {
      Failure(error)
    }

    function Extract(): T
      requires Success?
    {
      value
    }
  }
}
