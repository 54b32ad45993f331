/** Failure-carrying values used where the scripts catch an exception or skip
    an input instead of stopping. */
module Wrappers {

  /** A value that may be absent: a file whose read failed is `None`. */
  datatype Option<+T> = None | Some(value: T)

  /** Either a value or the error that replaced it. */
  datatype Result<+R, +E> = Ok(value: R) | Err(error: E)
}
