/** Rust's `Option` and `Result`, the shapes in which the driver reports
    absence and failure. */
module Wrappers {

  datatype Option<+T> = None | Some(value: T)

  datatype Result<+T, +E> = Ok(value: T) | Err(error: E)
}
