/** Option and Result values standing in for Java's `null` and for thrown exceptions. */
module Results {

  /** `None` plays the part of a Java `null` reference. */
  datatype Option<+T> = None | Some(value: T)

  /** `Err` plays the part of an exception thrown by the modelled Java code. */
  datatype Result<+T, +E> = Ok(value: T) | Err(error: E) {

    predicate IsFailure() {
      Err?
    }

    function PropagateFailure<U>(): Result<U, E>
      requires Err?
    {
      Err(error)
    }

    function Extract(): T
      requires Ok?
    {
      value
    }
  }
}
