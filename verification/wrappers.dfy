/** Failure-compatible wrapper types shared by the modules of this model. */
module Wrappers {

  /** A value that may be absent; stands for a C# reference that may be null. */
  datatype Option<+T> = None | Some(value: T)

  /** Either a value or the exception that stopped the computation. */
  datatype Result<+R, +E> = Success(value: R) | Failure(error: E) {

    predicate IsFailure() {
      Failure?
    }

    function PropagateFailure<U>(): Result<U, E>
      requires Failure?
    {
      Failure(error)
    }

    function Extract(): R
      requires Success?
    {
      value
    }
  }
}
