/** Option and Result, the two failure-carrying types the driver's code returns. */
module Wrappers {

  datatype Option<+T> = None | Some(value: T)

  datatype Result<+T, +E> = Ok(value: T) | Err(error: E)

  /** The unit value `()` of a `Result<()>`. */
  datatype Unit = Unit
}
