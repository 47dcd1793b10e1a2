/** Optional values and results with an error branch, used for the key lookup
    (which may find nothing) and for the token handler (which may fail with 404). */
module Wrappers {

  datatype Option<+T> = None | Some(value: T)

  datatype Result<+T, +E> = Ok(value: T) | Err(error: E)
}
