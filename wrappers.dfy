/** Option and Result, the failure-carrying values the model returns instead of
    throwing or returning `undefined`. */
module Wrappers {

  datatype Option<+T> = None | Some(value: T)

  datatype Result<+R, +E> = Success(value: R) | Failure(error: E)
}
