/** Optional values and results with an error, as the handlers receive them from the HTTP library. */
module Wrappers {

  datatype Option<+T> = None | Some(value: T)

  datatype Result<+T, +E> = Ok(value: T) | Err(error: E)
}
