/** Option and Result, the two failure-carrying shapes the Rust code returns. */
module Wrappers {

  datatype Option<+T> = None | Some(value: T)

  /** Rust's `Result<T, E>`: `Ok(value)` or `Err(error)`. */
  datatype Result<+T, +E> = Ok(value: T) | Err(error: E)

  /** The crate's error type (src/error.rs); the core only ever produces this one variant. */
  datatype Error = CannotConvert
}
