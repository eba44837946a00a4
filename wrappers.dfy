/** Option and Result, the shapes Rust's `Option<T>` and `Result<T, E>` take in this model. */
module Wrappers {

  datatype Option<+T> = None | Some(value: T)

  datatype Result<+T, +E> = Ok(value: T) | Err(error: E)

  /** `opt.unwrap_or_default()` for an optional string: the empty string when absent. */
  function UnwrapOrEmpty(opt: Option<string>): string
  {
    match opt
    case Some(v) => v
    case None => ""
  }
}
