/** Optional values and results, standing for Rust's `Option` and `Result`. */
module Wrappers {

  /** Rust's `Option<T>`: an absent value is distinct from every present one. */
  datatype Option<+T> = None | Some(value: T)

  /** Rust's `Result<T, E>`. */
  datatype Result<+T, +E> = Ok(value: T) | Err(error: E)
}
