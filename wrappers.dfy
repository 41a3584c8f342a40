/** The two wrappers the handlers need: Option for a pointer that may be nil,
    Result for a value-or-error return. */
module Wrappers {

  datatype Option<+T> = None | Some(value: T)

  datatype Result<+R, +E> = Success(value: R) | Failure(error: E)
}
