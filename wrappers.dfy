/** Option and Result values for the model's partial operations. */
module Wrappers {

  datatype Option<+T> = None | Some(value: T)

  /** A Java exception, kept as its class name and message. */
  datatype Exception = IndexOutOfBoundsException(message: string)

  /** Either a normal return value or the exception a Java method throws. */
  datatype Result<+T> = Ok(value: T) | Thrown(exception: Exception)
}
