/** Optional values and results with an error channel, used across the model. */
module Wrappers {

  /** `None` stands for a Java `null` reference. */
  datatype Option<+T> = None | Some(value: T)

  /** The value of a call that either returns normally or raises an error. */
  datatype Result<+T, +E> = Ok(value: T) | Err(error: E)
}
