/** Optional values, the exceptions a book-store item can raise, and a
    failure-compatible result type that stands in for "throws or returns". */
module Results {

  /** A value that may be absent; `None` plays the role of a C# `null`. */
  datatype Option<+T> = None | Some(value: T) {
    /** The null-coalescing operator `??`. */
    function GetOr(default: T): T {
      match this
      case Some(v) => v
      case None => default
    }
  }

  /** A string reference that may be null. */
  type NString = Option<string>

  /** The exceptions the item raises. `paramName` and `rangeParamName` are the `ParamName` the
      exception reports. */
  datatype Error =
    | ArgumentException(paramName: string)
    | ArgumentOutOfRangeException(rangeParamName: Option<string>)
    | InvalidOperationException
      /** A null `isbn`, `isni` or `currency` dereferenced during validation. */
    | NullFault

  /** Either the value an operation produced or the exception it raised. */
  datatype Result<+T> = Ok(value: T) | Err(error: Error) {
    predicate IsFailure() {
      Err?
    }

    function PropagateFailure<U>(): Result<U>
      requires Err?
    {
      Err(error)
    }

    function Extract(): T
      requires Ok?
    {
      value
    }

    /** The value, or `default` when the operation raised. */
    function GetOr(default: T): T {
      match this
      case Ok(v) => v
      case Err(_) => default
    }
  }
}
