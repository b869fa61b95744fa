/** Optional values and results with an error, the two shapes the service's
    functions return (`Option<T>` and `Result<T, E>`). */
module Wrappers {
  datatype Option<T> = None | Some(value: T)

  datatype Result<T, E> = Ok(value: T) | Err(error: E)
}
