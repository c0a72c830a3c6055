/** Failure-compatible wrappers used throughout the Tablut model. */
module Wrappers {

  /** A value that may be absent: the model's rendering of a Java `null`. */
  datatype Option<+T> = None | Some(value: T)

  /** The outcome of an operation that may abort.  In this model the only
      failures are the null dereferences the Java code can run into. */
  datatype Result<+T, +E> = Success(value: T) | Failure(error: E) {

    predicate IsFailure() {
      Failure?
    }

    function PropagateFailure<U>(): Result<U, E>
      requires Failure?
    {
      Failure(error)
    }

    function Extract(): T
      requires Success?
    {
      value
    }
  }
}
