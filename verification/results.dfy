/** Optional values and success-or-error results. */
module Results {

  datatype Option<+T> = None | Some(value: T)

  /** A computation that either produces a value or stops with the error the
      Python code would raise. */
  datatype Result<+T, +E> = Success(value: T) | Failure(error: E)
}
