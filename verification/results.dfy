/** Optional values and Python-style exceptions, shared by every module of the model.
    A Python function that may raise is modelled as a function returning `Result`. */
module Results {

  datatype Option<+T> = None | Some(value: T) {

    /** The value, or `default` when absent (Python's `x or default` on an optional). */
    function GetOr(default: T): T {
      match this
      case Some(v) => v
      case None => default
    }
  }

  /** The exception classes the modelled scripts raise or catch. */
  datatype Exception =
    | FileNotFoundError(what: string)
    | ValueError(what: string)
    | RuntimeError(what: string)
    | IndexError
    | OverflowError(what: string)
    | UnidentifiedImageError(what: string)

  datatype Result<+T> = Ok(value: T) | Err(error: Exception) {

    predicate IsFailure() {
      Err?
    }

    function PropagateFailure<U>(): Result<U>
      requires Err?
    {
      Err(error)
    }

    function Extract(): T
      requires Ok?
    {
      value
    }
  }
}
