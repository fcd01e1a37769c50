/** Option and Result wrappers, and the Python exceptions the modelled code can raise. */
module Wrappers {

  datatype Option<+T> = None | Some(value: T) {

    /** The wrapped value, or `default` when there is none. */
    function GetOr(default: T): T {
      match this
      case Some(v) => v
      case None => default
    }
  }

  /** The exceptions the modelled Python code raises; each carries what it was raised about. */
  datatype Error =
    | KeyError(key: string)
    | ValueError(what: string)
    | AttributeError(name: string)
    | TypeError(what: string)
    | IndexError(what: string)
    | ZeroDivisionError
    | Raised(message: string)   // a bare `raise Exception(...)`
    | ReError(message: string)  // `re.error`

  /** Either a value or the exception that ended the call. */
  datatype Result<+T> = Ok(value: T) | Err(error: Error) {

    predicate IsFailure() {
      Err?
    }

    function PropagateFailure<U>(): Result<U>
      requires Err?
    {
      Err(error)
    }

    function Extract(): T
      requires Ok?
    {
      value
    }
  }
}
