/** The success-or-error value that the walkers return (Rust's `io::Result`). */
module Wrappers {

  datatype Result<+T, +E> = Ok(value: T) | Err(error: E)

  /** Option, for "an index if there is one". */
  datatype Option<+T> = None | Some(value: T)
}
