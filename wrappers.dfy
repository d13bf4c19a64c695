/** Optional values and results with an error, as Swift's `Optional` and `throws` use them. */
module Wrappers {

  datatype Option<+T> = None | Some(value: T)

  datatype Result<+R, +E> = Success(value: R) | Failure(error: E)

  /** Success or failure of an operation that returns nothing. */
  datatype Outcome<+E> = Pass | Fail(error: E)
}
