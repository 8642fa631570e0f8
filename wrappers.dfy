/** Option and Result types used for the reader's absent values and raised errors. */
module Wrappers {

  datatype Option<T> = None | Some(value: T)

  /** A value, or the error the reader would raise instead of returning it. */
  datatype Result<T, E> = Ok(value: T) | Err(error: E) {
    predicate IsFailure() { Err? }

    function PropagateFailure<U>(): Result<U, E>
      requires Err?
    {
      Err(error)
    }

    function Extract(): T
      requires Ok?
    {
      value
    }
  }

  /** The outcome of an operation that only changes state: it passes or raises. */
  datatype Outcome<E> = Pass | Fail(error: E)
}
