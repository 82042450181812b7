/** The three error kinds of the library, and the result type every fallible operation returns. */
module Errors {

  /** The kinds of failure an operation can report; errors are values and carry nothing else. */
  datatype JolinError = ShapeMismatching | NotEnoughInput | SingularMatrix

  /** Either a value or one of the error kinds, never both. */
  datatype Result<T> = Ok(value: T) | Err(error: JolinError)
}
