/** Optional values and the outcomes of operations that can fail. */
module Wrappers {
  datatype Option<+T> = None | Some(value: T)

  datatype Result<+V, +E> = Ok(value: V) | Err(error: E)

  datatype Outcome<+E> = Pass | Fail(error: E)
}
