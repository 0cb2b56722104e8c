/** Plain option and result types shared by the rest of the model. */
module Wrappers {

  /** An optional value: the result of a parse that may fail. */
  datatype Option<+T> = None | Some(value: T)

  /** A value or the reason it could not be produced. */
  datatype Result<+T, +E> = Ok(value: T) | Err(error: E)
}
