/** Option and Result: the failure-carrying values that stand in for Python's
    exceptions (KeyError, ValueError, IndexError, TypeError) in this model. */
module Wrappers {

  datatype Option<+T> = None | Some(value: T)

  datatype Result<+T, +E> = Ok(value: T) | Err(error: E)
}
