/** Option and Result, used for the optional regex groups and for the
    exceptions the style checker raises. */
module Wrappers {

  datatype Option<+T> = None | Some(value: T)

  datatype Result<+T, +E> = Success(value: T) | Failure(error: E)
}
