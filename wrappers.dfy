/** Option and Result, the two failure-carrying types the handler is written with. */
module Wrappers {

  /** Rust's `Option<T>`. */
  datatype Option<+T> = None | Some(value: T)

  /** Rust's `Result<T, E>`: the `?` operator returns early on `Err`. */
  datatype Result<+T, +E> = Ok(value: T) | Err(error: E)
}
