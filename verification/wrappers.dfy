/** Result type used for the error paths of the route-ordering engine. */
module Wrappers {

  /** Either a value or the reason it could not be computed. */
  datatype Result<+T, +E> = Success(value: T) | Failure(error: E)

  /** An optional form field: absent, or present with some (possibly empty) text. */
  datatype Option<+T> = None | Some(value: T)
}
