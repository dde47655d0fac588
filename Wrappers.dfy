/** Option and Result, used where the Go code returns a value that may be
    missing or an error that aborts the run. */
module Wrappers {

  datatype Option<T> = None | Some(value: T)

  datatype Result<T, E> = Ok(value: T) | Err(error: E)
}
