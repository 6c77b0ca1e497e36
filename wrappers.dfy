/** Option and Result, for values the source may leave `undefined` and for the
    export that either produces its text or throws. */
module Wrappers {

  datatype Option<+T> = None | Some(value: T)

  datatype Result<+R, +E> = Success(value: R) | Failure(error: E)
}
