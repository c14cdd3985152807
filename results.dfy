/** Failure-carrying results: the model's stand-in for the source's thrown
    errors and rejected promises, and for its `null` "no correction" value. */
module Results {

  datatype Option<+T> = None | Some(value: T)

  datatype Result<+T, +E> = Success(value: T) | Failure(error: E)

  datatype Outcome<+E> = Pass | Fail(error: E)
}
