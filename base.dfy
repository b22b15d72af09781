/** Tagged results shared by the modules of the model. */
module Base {

  /** A value that may be absent. */
  datatype Option<+T> = None | Some(value: T)

  /** The outcome of a step that can abort the whole conversion. */
  datatype Result<+T, +E> = Success(value: T) | Failure(error: E)
}
