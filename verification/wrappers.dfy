/** Failure-carrying result types shared by every module of the model. */
module Wrappers {

  /** An optional value: Go's nil pointer or a missing map entry. */
  datatype Option<+T> = None | Some(value: T)

  /** A value or an error message; Go's `(T, error)` return pair. */
  datatype Result<+T> = Success(value: T) | Failure(error: string) {

    predicate IsFailure() {
      Failure?
    }

    function PropagateFailure<U>(): Result<U>
      requires Failure?
    {
      Failure(error)
    }

    function Extract(): T
      requires Success?
    {
      value
    }
  }
}
