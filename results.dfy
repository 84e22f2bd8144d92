/** Option and Result types shared by the modules of this model. */
module Results {

  datatype Option<+T> = None | Some(value: T)

  /** The outcome of a step that may raise Python's `ValueError` from
      `int()`; the error carries the literal that `int()` refused. */
  datatype Result<+T> = Ok(value: T) | ValueError(literal: string)
}
