/** Option and Result values used for the fallible operations of the toolkit. */
module Wrappers {

  datatype Option<+T> = None | Some(value: T)

  /** An `Ok` value or an `Err` carrying the reason, as Rust's `Result`. */
  datatype Result<+T, +E> = Ok(value: T) | Err(error: E)
}
