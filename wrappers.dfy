/** Option and Result, used for JavaScript's `null` exit code and for the
    resolve/reject outcome of a blame run. */
module Wrappers {

  datatype Option<+T> = None | Some(value: T)

  datatype Result<+R, +E> = Success(value: R) | Failure(error: E)
}
