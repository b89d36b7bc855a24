/** Error kinds and the result wrapper used in place of the library's exceptions. */
module Results {

  /** Why an operation fails.
      InvalidArgument: a missing width, a width that does not fit, a bad list item or a non-hex digit.
      SignMismatch: a negative value given to an unsigned conversion or variable.
      DivisionByZero: an all-zero denominator.
      EmptyVector: decoding an empty vector, whose sign bit the library indexes (an index error).
      NotAnArray: a hexadecimal string assigned to a variable; the library then asks the string
        for an array shape and fails. */
  datatype Error = InvalidArgument | SignMismatch | DivisionByZero | EmptyVector | NotAnArray

  datatype Result<T> = Ok(value: T) | Err(error: Error) {
    predicate IsFailure() { Err? }
    function PropagateFailure<U>(): Result<U>
      requires Err?
    {
      Err(error)
    }
    function Extract(): T
      requires Ok?
    {
      value
    }
  }

  datatype Option<T> = None | Some(value: T)
}
