/**
  Failure-compatible wrappers for the installer model. Every Python exception
  the installer lets escape is one `Error` value, so that an operation that
  raises in the source returns `Err(...)` here instead of having a
  precondition that forbids the input.
 */
module Outcomes {

  /** A value that may be absent (`str.index` that would raise, a missing key). */
  datatype Option<+T> = None | Some(value: T) {

    /** Turns an absent value into the given error. */
    function ToResult(e: Error): Result<T> {
      match this
      case Some(v) => Ok(v)
      case None => Err(e)
    }
  }

  /** The exceptions the modelled code raises, one constructor per cause. */
  datatype Error =
    | NotFound(needle: string)   // ValueError from `str.index`
    | IndexOutOfRange            // IndexError from indexing a list
    | MissingKey(key: string)    // KeyError from a dict lookup
    | NotAString(key: string)    // TypeError from `+` on a non-str value
    | Unsupported                // ValueError "Not a .py or .zip file"
    | NoScripts                  // ValueError "No .py files in the Archive"
    | EmptyMin                   // ValueError from `min()` of nothing
    | EvalFailed                 // `eval` of the metadata literal raised
    | NotAMapping                // TypeError from subscripting the set a `{...}` literal can denote
    | BadArchive                 // the bytes are not a readable zip archive

  /** Either a value or the exception that replaced it. */
  datatype Result<+T> = Ok(value: T) | Err(error: Error) {

    predicate IsFailure() {
      Err?
    }

    function PropagateFailure<U>(): Result<U>
      requires Err?
    {
      Err(error)
    }

    function Extract(): T
      requires Ok?
    {
      value
    }
  }
}
