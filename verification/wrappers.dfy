/** Failure-carrying results used by the scheduler model. */
module Wrappers {

  /** A value that may be absent, as the `.first()` of an empty query. */
  datatype Option<+T> = None | Some(value: T)

  /** A value or the reason a request handler would have failed. */
  datatype Result<+R, +E> = Success(value: R) | Failure(error: E)
}
