/** The outcome of an operation that can be refused. */
module Results {

  datatype Option<+T> = None | Some(value: T)

  datatype Result<+T, +E> = Success(value: T) | Failure(error: E)

  /** The success value of an operation that produces nothing. */
  datatype Done = Done
}
