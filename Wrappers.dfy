/** Optional values and results with an error, for the source's "not found" and undefined-behaviour paths. */
module Wrappers {

  datatype Option<T> = None | Some(value: T)

  datatype Result<T, E> = Ok(value: T) | Err(error: E)
}
