/** Option and Result types shared by the tag-set model. */
module Wrappers {

  /** An optional value: the model of Rust's `Option`. */
  datatype Option<+T> = None | Some(value: T)

  /** A value or an error: the model of Rust's `Result`. */
  datatype Result<+T, +E> = Ok(value: T) | Err(error: E)
}
