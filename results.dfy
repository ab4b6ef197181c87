/** Exceptions raised by the library, as values. */
module Results {

  /** The exception types the operations can throw. */
  datatype Error =
    | ArgumentOutOfRange  // System.ArgumentOutOfRangeException
    | Overflow            // System.OverflowException
    | ArgumentNull        // System.ArgumentNullException

  /** A reference argument that may be null. */
  datatype Option<+T> = None | Some(value: T)

  /** A call either returns a value or throws; usable with `:-`. */
  datatype Result<+T> = Ok(value: T) | Err(error: Error) {

    predicate IsFailure() {
      Err?
    }

    function PropagateFailure<U>(): Result<U>
      requires Err?
    {
      Err(error)
    }

    function Extract(): T
      requires Ok?
    {
      value
    }
  }
}
