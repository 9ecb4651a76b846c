/** Option and Result, the failure-carrying values the model returns where the
    source returns `-1`, `undefined` or throws. */
module Wrappers {

  datatype Option<+T> = None | Some(value: T)

  datatype Result<+R, +E> = Success(value: R) | Failure(error: E)
}
