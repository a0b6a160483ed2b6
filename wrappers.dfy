/** The optional value and the outcome-or-error value shared by the viewer and
    the label file. */
module Wrappers {
  datatype Option<T> = None | Some(value: T)

  datatype Result<T, E> = Success(value: T) | Failure(error: E)
}
