/** Failure-carrying wrappers used throughout the model: the C code signals
    failure by returning 0 or NULL; the model returns an explicit `Err`,
    and a lookup miss returns `None`. */
module Results {

  datatype Option<+T> = None | Some(value: T)

  datatype Result<+T, +E> = Ok(value: T) | Err(error: E) {

    predicate IsFailure() {
      Err?
    }

    function PropagateFailure<U>(): Result<U, E>
      requires Err?
    {
      Err(error)
    }

    function Extract(): T
      requires Ok?
    {
      value
    }
  }
}
