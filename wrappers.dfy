/** Optional values and results with an error, as used by the title generator's model. */
module Wrappers {

  /** A value that may be absent: a failed or empty lookup is `None`. */
  datatype Option<+T> = None | Some(value: T)

  /** The outcome of a step that can raise: `Err` carries the error that is raised. */
  datatype Result<+T, +E> = Ok(value: T) | Err(error: E)
}
