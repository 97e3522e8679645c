/** Optional values and the `Result<T, String>` the frame codec returns. */
module Wrappers {

  datatype Option<T> = None | Some(value: T)

  /** Rust's `Result<T, String>`: an error carries its message. */
  datatype Result<T> = Ok(value: T) | Err(error: string)
}
