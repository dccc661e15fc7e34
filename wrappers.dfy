/** Option and Result, the two failure-compatible wrappers the model uses for
    values that may be missing (a null from the DOM) and for exceptions. */
module Wrappers {

  datatype Option<+T> = None | Some(value: T)

  datatype Result<+T, +E> = Ok(value: T) | Err(error: E)
}
