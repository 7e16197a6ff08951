/** Option and Result, the two failure-compatible wrappers the model uses
    for Ruby's nil and for the exceptions the modelled code raises. */
module Wrappers {

  datatype Option<+T> = None | Some(value: T)

  datatype Result<+T, +E> = Ok(value: T) | Err(error: E)
}
