/** Failure-compatible result types used throughout the translator. */
module Wrappers {

  datatype Option<+T> = None | Some(value: T)

  /** The outcome of a step that may abort the whole run with an error message. */
  datatype Result<+T> = Success(value: T) | Failure(error: string) {

    predicate IsFailure() {
      Failure?
    }

    function PropagateFailure<U>(): Result<U>
      requires Failure?
    {
      Failure(error)
    }

    function Extract(): T
      requires Success?
    {
      value
    }
  }
}
