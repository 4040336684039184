/** Optional values (Java's nullable references) and results (Java's thrown exceptions). */
module Wrappers {
  datatype Option<+T> = None | Some(value: T)

  datatype Result<+T, +E> = Ok(value: T) | Err(error: E)
}
