/** Failure-compatible wrappers shared by both engines. */
module Wrappers {

  /** A value that may be absent (Python's `None`). */
  datatype Option<+T> = None | Some(value: T) {
    predicate IsFailure() { None? }

    function PropagateFailure<U>(): Option<U>
      requires None?
    {
      None
    }

    function Extract(): T
      requires Some?
    {
      value
    }
  }

  /** The Python exception that aborts an engine call. */
  datatype PyException = IndexError | ValueError | TypeError | OverflowError

  /** The outcome of a computation that may raise. */
  datatype Result<+T> = Ok(value: T) | Err(error: PyException) {
    predicate IsFailure() { Err? }

    function PropagateFailure<U>(): Result<U>
      requires Err?
    {
      Err(error)
    }

    function Extract(): T
      requires Ok?
    {
      value
    }
  }
}
