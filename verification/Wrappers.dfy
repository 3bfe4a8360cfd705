/** The two result shapes shared by the components of this project. */
module Wrappers {

  /** std::optional and null pointers. */
  datatype Option<+T> = None | Some(value: T)

  /** A value, or the exception the original throws. */
  datatype Result<+T, +E> = Success(value: T) | Failure(error: E)
}
