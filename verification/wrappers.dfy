/** `Option` and `Result`: the outcomes of parses and queries in the weather model. */
module Wrappers {

  /** An optional value: the outcome of a parse that may reject its input. */
  datatype Option<+T> = None | Some(value: T)

  /** A value or an error: the outcome of a step that may fail. */
  datatype Result<+R, +E> = Success(value: R) | Failure(error: E)
}
