/** Option and Result, the failure-carrying sum types used across the model. */
module Results {

  datatype Option<+T> = None | Some(value: T)

  /** The outcome of a call that either returns `value` or throws `error`. */
  datatype Result<+R, +E> = Success(value: R) | Failure(error: E)
}
