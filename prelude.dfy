/** Rust's Option and Result, as the model's failure-carrying values. */
module Prelude {

  datatype Option<+T> = None | Some(value: T)

  datatype Result<+T, +E> = Ok(value: T) | Err(error: E)

  /** A `Result<()>`: success, or the error that ended the call. */
  datatype Outcome<+E> = Pass | Fail(error: E)
}
