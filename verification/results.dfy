/**
 Shared failure vocabulary of the model: the Java exceptions the modelled
 classes can raise, and the result shapes used to report them.
 */
module Results {

  /** The conventional Some/None datatype, used in place of a Java null. */
  datatype Option<+T> = None | Some(value: T)

  /** The exceptions thrown by the modelled code. */
  datatype Exception =
    | IllegalArgument    // IllegalArgumentException
    | IndexOutOfBounds   // IndexOutOfBoundsException and ArrayIndexOutOfBoundsException
    | NoSuchElement      // NoSuchElementException
    | NegativeArraySize  // NegativeArraySizeException
    | NullPointer        // NullPointerException

  /** A value, or the exception raised instead of returning it. */
  datatype Result<+T> = Ok(value: T) | Err(error: Exception) {

    predicate IsFailure() {
      Err?
    }

    function PropagateFailure<U>(): Result<U>
      requires Err?
    {
      Err(error)
    }

    function Extract(): T
      requires Ok?
    {
      value
    }
  }

  /** The state an operation leaves behind, together with the exception it
      raised, if any. Used where the source mutates state before throwing. */
  datatype Outcome<+S> = Outcome(state: S, thrown: Option<Exception>) {

    predicate Completed() {
      thrown.None?
    }
  }
}
