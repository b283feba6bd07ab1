/** Optional values and results with an error, as the sign-in flow uses them. */
module Wrappers {

  /** A value that may be absent (`undefined` / `null` in the portal). */
  datatype Option<+T> = None | Some(value: T)

  /** The outcome of an operation that either yields a value or throws an error. */
  datatype Result<+R, +E> = Success(value: R) | Failure(error: E)
}
