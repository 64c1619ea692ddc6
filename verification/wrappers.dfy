/** Optional values and success-or-error results, used for the model's
    absent fields and for handlers that can fail. */
module Wrappers {

  datatype Option<+T> = None | Some(value: T)

  /** A handler either produces a value or reports one error; an error
      carries no new state, so nothing was written. */
  datatype Result<+T, +E> = Ok(value: T) | Err(error: E)
}
