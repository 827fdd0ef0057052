/** Failure-compatible wrappers shared by the whole model.

    Java exceptions become `Err` values; Java's `null` becomes `None`. */
module Results {

  /** The exceptions the modelled code can raise, with the message it attaches. */
  datatype Failure =
    | NullPointer(message: string)
    | IllegalArgument(message: string)
    | ConfigFormat(message: string)
    /** StringIndexOutOfBounds / ArrayIndexOutOfBounds from an index the code did not guard */
    | IndexOutOfBounds

  datatype Result<+T> = Ok(value: T) | Err(error: Failure) {

    predicate IsFailure() {
      Err?
    }

    function PropagateFailure<U>(): Result<U>
      requires Err?
    {
      Err(error)
    }

    function Extract(): T
      requires Ok?
    {
      value
    }
  }

  /** A Java reference that may be `null` (`None`). */
  datatype Option<+T> = None | Some(value: T)
}
