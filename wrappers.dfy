/** Failure-compatible result types used by every operation that can throw. */
module Wrappers {

  datatype Option<+T> = None | Some(value: T)

  /** The outcome of a JavaScript call: a value, or the exception it throws
      (identified by the message the library passes to `Error`). */
  datatype Result<+T> = Ok(value: T) | Err(error: string) {

    predicate IsFailure() {
      Err?
    }

    function PropagateFailure<U>(): Result<U>
      requires Err?
    {
      Err(error)
    }

    function Extract(): T
      requires Ok?
    {
      value
    }
  }

  /** Message of the RangeError a DataView or typed-array access out of bounds throws. */
  const RangeError: string := "RangeError"
  /** Message of the TypeError thrown when a property of null or undefined is read. */
  const TypeError: string := "TypeError"
}
