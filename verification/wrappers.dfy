/** Failure-carrying result type, used where the source raises an exception. */
module Wrappers {

  /** Either a value or the error the source would have raised instead. */
  datatype Result<+T, +E> = Success(value: T) | Failure(error: E)
}
