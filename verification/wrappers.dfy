/** The failure-compatible result type used in place of the exceptions the entity
    and the collection throw. It works with `:-`. */
module Wrappers {

  /** Either a computed value or the error that stopped the computation. */
  datatype Result<+R, +E> = Success(value: R) | Failure(error: E) {

    predicate IsFailure() {
      Failure?
    }

    function PropagateFailure<U>(): Result<U, E>
      requires Failure?
    {
      Failure(error)
    }

    function Extract(): R
      requires Success?
    {
      value
    }
  }
}
