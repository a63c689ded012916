/** Option and Result datatypes shared by the rest of the model. */
module Wrappers {

  /** Ruby's `nil`-or-value, as returned by a hash lookup. */
  datatype Option<+T> = None | Some(value: T)

  /** Either a value or the exception the Ruby code would raise. */
  datatype Result<+T, +E> = Success(value: T) | Failure(error: E)
}
