/** Small failure-carrying datatypes shared by the other modules: the source's
    nullable references become `Option`, its thrown errors become `Result`. */
module Wrappers {

  /** A value that may be absent (the source's `T | null`). */
  datatype Option<+T> = None | Some(value: T)

  /** Either a value or the error the source would have thrown. */
  datatype Result<+T, +E> = Ok(value: T) | Err(error: E)
}
