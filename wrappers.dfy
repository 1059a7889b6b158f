/** Optional values and results that may carry an error message. */
module Wrappers {

  datatype Option<T> = None | Some(value: T)

  /** A computation that either yields a value or fails with the message the
      Go code reports (a returned `error`, or a fatal log line). */
  datatype Result<T> = Ok(value: T) | Err(message: string)
}
