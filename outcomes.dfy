/** Optional values and the outcome of an operation that the source can abort with an exception. */
module Outcomes {

  /** A value that may be absent; `None` stands for Java's `null`. */
  datatype Option<T> = None | Some(value: T)

  /** The exceptions the modelled code raises. */
  datatype Failure =
    | InvalidToken      // `throw new Exception("Invalid token")` in the genetic-code reader
    | IndexOutOfBounds  // `List.get`, `String.substring` or `charAt` outside the bounds

  /** The result of an operation that either returns a value or throws. */
  datatype Result<T> = Ok(value: T) | Err(error: Failure) {
    predicate IsFailure() {
      Err?
    }

    function PropagateFailure<U>(): Result<U>
      requires Err?
    {
      Err(error)
    }

    function Extract(): T
      requires Ok?
    {
      value
    }
  }
}
