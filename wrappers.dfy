/** Optional values, and the outcome of a computation that may throw a
    JavaScript exception. */
module Wrappers {

  datatype Option<T> = None | Some(value: T)

  /** The exceptions the modelled code can raise: a `TypeError` (calling
      something that is not a function, iterating something that is not
      iterable) or a `SyntaxError` (a regular expression that does not
      compile). */
  datatype JsError = TypeError | SyntaxError

  datatype Result<T> = Ok(value: T) | Throws(error: JsError)
}
