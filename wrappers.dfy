/** Option and Result, the two failure-carrying shapes the source uses throughout. */
module Wrappers {

  datatype Option<+T> = None | Some(value: T)

  /** `Ok` carries a value, `Err` the reason the operation failed. */
  datatype Result<+T, +E> = Ok(value: T) | Err(error: E)
}
