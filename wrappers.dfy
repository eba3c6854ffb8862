/** Small result types shared by the modules of the model. */
module Wrappers {

  /** The conventional optional value (Python's `str | None`). */
  datatype Option<T> = None | Some(value: T)

  /** The outcome of a call into a collaborator that may raise: either a value
      or an exception, carried as the text `str(e)` would give. */
  datatype Outcome<T> = Ok(value: T) | Raised(error: string)
}
