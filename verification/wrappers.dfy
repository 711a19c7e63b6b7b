/** A plain optional value and a plain success/error result, shared by the model. */
module Wrappers {

  /** A value that may be absent: a missing query parameter, a row a query did not find. */
  datatype Option<+T> = None | Some(value: T)

  /** The outcome of a statement the database may refuse. */
  datatype Result<+T, +E> = Ok(value: T) | Err(error: E)
}
