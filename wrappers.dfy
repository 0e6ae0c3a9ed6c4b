/** Optional values and the fallible result of the header decoder. */
module Wrappers {

  /** A value that may be absent (Rust's `Option`). */
  datatype Option<+T> = None | Some(value: T)

  /** The outcome of a decode: a value, or one opaque failure carrying no
      detail (Rust's `Result<T, ()>`). */
  datatype Result<+T> = Ok(value: T) | Err
}
