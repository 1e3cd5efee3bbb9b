/** Option and Result, the two failure-aware wrappers the model uses for
    optional dictionary fields and for the operations that raise. */
module Wrappers {

  datatype Option<+T> = None | Some(value: T)

  datatype Result<+R, +E> = Success(value: R) | Failure(error: E)
}
