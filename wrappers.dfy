/** Optional values and error-carrying results, standing in for Python's
    `None` and for the exceptions the tool raises. */
module Wrappers {

  datatype Option<+T> = None | Some(value: T)

  datatype Result<+R, +E> = Success(value: R) | Failure(error: E)

  /** A check that either passes or fails with a reason. */
  datatype Outcome<+E> = Pass | Fail(error: E)
}
