/** Option and Result: the "None or a value" and "error or a value" returns of the system. */
module Wrappers {

  datatype Option<+T> = None | Some(value: T)

  /** A value, or the HTTP error a route raises instead of returning. */
  datatype Result<+R, +E> = Success(value: R) | Failure(error: E)
}
