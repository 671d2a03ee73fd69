/** Failure-carrying results for the operations of the wafer pipeline that raise
    an exception in the original program. */
module Results {

  /** Either a value or the error the original program raises instead. */
  datatype Result<+T, +E> = Ok(value: T) | Err(error: E) {

    predicate IsFailure() {
      Err?
    }

    function PropagateFailure<U>(): Result<U, E>
      requires Err?
    {
      Err(error)
    }

    function Extract(): T
      requires Ok?
    {
      value
    }
  }

  /** A value that may be absent, as a failed dictionary lookup. */
  datatype Option<+T> = None | Some(value: T)
}
