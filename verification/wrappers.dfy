/** Optional values and the fulfilled-or-rejected outcome of an asynchronous call. */
module Wrappers {

  datatype Option<+T> = None | Some(value: T)

  /** `Ok` is a fulfilled promise, `Err` a rejected one carrying its reason. */
  datatype Result<+T, +E> = Ok(value: T) | Err(error: E)
}
