/** The `Option` and `Result` datatypes shared by the model. */
module Wrappers {

  /** An optional value: a lookup that may find nothing. */
  datatype Option<+T> = None | Some(value: T)

  /** A value or the reason there is none. */
  datatype Result<+T, +E> = Ok(value: T) | Err(error: E)
}
