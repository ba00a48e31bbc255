/** Optional values and error results shared by the other modules. */
module Results {

  datatype Option<+T> = None | Some(value: T)

  /** A computation that either produced a value or failed with an error
      (the model of a thrown exception or an error return). */
  datatype Result<+T, +E> = Success(value: T) | Failure(error: E)
}
