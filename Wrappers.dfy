/** Failure-carrying result types used in place of the source's exceptions. */
module Wrappers {

  datatype Option<+T> = None | Some(value: T)

  /** Either a value or the exception the source would have thrown. */
  datatype Result<+T, +E> = Success(value: T) | Failure(error: E)

  /** A void operation that either completes or throws. */
  datatype Outcome<+E> = Pass | Fail(error: E)
}
