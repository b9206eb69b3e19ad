/** Optional values and the outcome of a whole run. */
module Results {

  datatype Option<+T> = None | Some(value: T)

  /** A run either produces a value or stops with an error. */
  datatype Result<+R, +E> = Success(value: R) | Failure(error: E)
}
