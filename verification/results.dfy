/** Failure-carrying return types used across the model. */
module Results {

  /** An optional value: `None` where the Rust code would find nothing or panic. */
  datatype Option<+T> = None | Some(value: T)

  /** A value or an error, as the Rust code's `CerealResult`. */
  datatype Result<+T, +E> = Success(value: T) | Failure(error: E)
}
