/** Optional values and failure-carrying results shared by the other modules. */
module Results {

  /** A value that may be absent: JavaScript's `undefined`/`null` or a failed lookup. */
  datatype Option<+T> = None | Some(value: T)

  /** Either a computed value or the error that stopped the computation (a thrown exception in the source). */
  datatype Result<+T, +E> = Success(value: T) | Failure(error: E)
}
