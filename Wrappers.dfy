// Optional values and results, for the source's `Option`, its `unwrap`
// panics and its thrown exceptions.
module Wrappers {
  datatype Option<T> = None | Some(value: T)

  datatype Result<T, E> = Ok(value: T) | Err(error: E)
}
