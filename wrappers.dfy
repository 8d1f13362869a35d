/** Optional values and results that may carry an exception message. */
module Wrappers {

  datatype Option<+T> = None | Some(value: T)

  /** The outcome of a PHP call that either returns a value or throws an
      exception; `error` is the exception's message. */
  datatype Result<+T> = Ok(value: T) | Err(error: string)
}
