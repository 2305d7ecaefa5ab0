/** Optional values and results with an error, used for JavaScript's
    `undefined` and for the error paths of the adapter. */
module Wrappers {

  datatype Option<+T> = None | Some(value: T)

  datatype Result<+T, +E> = Ok(value: T) | Err(error: E)
}
