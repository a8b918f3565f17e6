/** Values that may be absent, and the Java exceptions the modelled code can raise. */
module Results {

  datatype Option<+T> = None | Some(value: T)

  /** The unchecked exceptions thrown by the request-handling code. */
  datatype Exception =
    | RuntimeException(message: string)
    | ArrayIndexOutOfBounds(index: int, length: nat)

  /** What a Java method that may throw gives back: a value, or the exception it throws. */
  datatype Result<+T> = Ok(value: T) | Throws(exception: Exception)
}
