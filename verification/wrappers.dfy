/** Optional values and fallible results, used where the Rust code has
    `Option` or would panic. */
module Wrappers {
  datatype Option<+T> = None | Some(value: T)

  datatype Result<+T, +E> = Success(value: T) | Failure(error: E)
}
