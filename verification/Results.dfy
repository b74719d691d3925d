/** Option, Result and the Java exceptions the modelled code can raise. */
module Results {

  /** A value that may be absent: Java's `null`, `Optional` or `OptionalLong`. */
  datatype Option<+T> = None | Some(value: T)

  /** The exceptions that the modelled operations raise, by Java class. */
  datatype Error =
    | NullPointer                       // java.lang.NullPointerException
    | IllegalArgument                   // java.lang.IllegalArgumentException
    | IllegalState                      // java.lang.IllegalStateException
    | UnsupportedOperation(op: string)  // java.lang.UnsupportedOperationException
    | CallbackFailed                    // an exception thrown by a user-supplied callback

  /** Either a computed value or the exception that was raised instead. */
  datatype Result<+T> = Success(value: T) | Failure(error: Error)
}
