/** Failure-compatible wrappers: every handler of the model answers with a `Result`. */
module Wrappers {

  /** A value that may be absent: a missing JSON key, a SQL NULL, a LEFT JOIN without a match. */
  datatype Option<+T> = None | Some(value: T)

  /** The outcome of a request handler: a value, or the error the handler answers with. */
  datatype Result<+T, +E> = Ok(value: T) | Err(error: E) {

    predicate IsFailure() {
      Err?
    }

    function PropagateFailure<U>(): Result<U, E>
      requires Err?
    {
      Err(error)
    }

    function Extract(): T
      requires Ok?
    {
      value
    }
  }
}
