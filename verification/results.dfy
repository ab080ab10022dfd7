/** Failure-carrying values shared by every module of the model: the Go
    source reports failures either as an `error` value or as a panic, and both
    become an `Err` here. */
module Results {

  /** A value that may be absent (a nil pointer or interface in the source). */
  datatype Option<+T> = None | Some(value: T)

  /** Either a computed value or the reason the computation failed. */
  datatype Result<+T, +E> = Ok(value: T) | Err(error: E) {

    predicate IsFailure() {
      Err?
    }

    function PropagateFailure<U>(): Result<U, E>
      requires Err?
    {
      Err(error)
    }

    function Extract(): T
      requires Ok?
    {
      value
    }
  }
}
