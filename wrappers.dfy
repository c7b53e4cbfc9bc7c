/** Option and Result: the not-found sentinels (null, 0) and the thrown
    exceptions of the store, as values. */
module Wrappers {

  datatype Option<+T> = None | Some(value: T)

  datatype Result<+T, +E> = Ok(value: T) | Err(error: E)
}
