/**
 * The optional value used for Python's None throughout the model, and the
 * outcome of a step that may raise.
 */
module Wrappers {

  datatype Option<+T> = None | Some(value: T) {

    /** The wrapped value, or the default when there is none. */
    function GetOr(default: T): T
    {
      match this
      case Some(v) => v
      case None => default
    }
  }

  /** A value, or the name of the exception Python raises instead. */
  datatype Result<+T> = Success(value: T) | Failure(error: string)
}
