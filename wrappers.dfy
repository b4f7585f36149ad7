/** Optional values and results with an error, for the nullable columns and
    the exceptions of the library index. */
module Wrappers {

  datatype Option<+T> = None | Some(value: T)

  datatype Result<+T, +E> = Ok(value: T) | Err(error: E)
}
