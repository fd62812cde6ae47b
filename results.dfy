/** Failure-compatible wrappers shared by every module of the model. */
module Results {

  /** The outcome of a JavaScript computation that may throw: its value, or
      the message of the exception it raises. */
  datatype Result<+T> = Ok(value: T) | Err(error: string) {
    predicate IsFailure() { Err? }

    function PropagateFailure<U>(): Result<U>
      requires Err?
    {
      Err(error)
    }

    function Extract(): T
      requires Ok?
    {
      value
    }
  }

  datatype Option<+T> = None | Some(value: T)
}
