/** Option and Result, the two shapes the Rust code returns. */
module Wrappers {

  datatype Option<+T> = None | Some(value: T)

  /** `Result<T, E>`; `Result<(), E>` is written with Dafny's unit type `()`. */
  datatype Result<+T, +E> = Ok(value: T) | Err(error: E)
}
