/** Rust's `Option` and `Result`, as used by the lexer and the parser. */
module Wrappers {

  datatype Option<+T> = None | Some(value: T)

  datatype Result<+T, +E> = Ok(value: T) | Err(error: E)
}
