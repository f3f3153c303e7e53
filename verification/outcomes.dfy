/** Optional values and failure-carrying results, used for the spreadsheet's
    empty cells and for the points where the scripts raise an exception. */
module Outcomes {

  /** A value that may be absent; an empty spreadsheet cell reads as None. */
  datatype Option<+T> = None | Some(value: T)

  /** Either a computed value or the error that stopped the computation.
      Usable with `:-`, which propagates the first failure. */
  datatype Result<+T, +E> = Success(value: T) | Failure(error: E) {

    predicate IsFailure() {
      Failure?
    }

    function PropagateFailure<U>(): Result<U, E>
      requires Failure?
    {
      Failure(error)
    }

    function Extract(): T
      requires Success?
    {
      value
    }
  }
}
