/** Option and Result, the value-level stand-ins for JavaScript's `null`/`undefined` and for
    the "error object or success object" unions the services return. */
module Wrappers {

  datatype Option<+T> = None | Some(value: T)

  datatype Result<+R, +E> = Success(value: R) | Failure(error: E)
}
