/** Optional values and typed failures: `undefined` and the early error returns of the handlers. */
module Results {

  /** A value that may be absent, as an `undefined` property of a JavaScript object is. */
  datatype Option<+T> = None | Some(value: T)

  /** The outcome of a compiler: a value, or the error a handler answers with instead. */
  datatype Result<+T, +E> = Success(value: T) | Failure(error: E)
}
