/** Failure-carrying results shared by the selection policies and the plan. */
module Results {
  datatype Option<+T> = None | Some(value: T)

  datatype Result<+T, +E> = Success(value: T) | Failure(error: E)

  /** A result without a value: the operation either passed or failed with an error. */
  datatype Outcome<+E> = Pass | Fail(error: E)
}
