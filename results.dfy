/** Failure-carrying values for the operations that throw an `Error` in the source. */
module Results {

  /** An optional value; `None` stands for JavaScript's empty string / falsy value. */
  datatype Option<+T> = None | Some(value: T)

  /** The value of an operation, or the message of the `Error` it throws. */
  datatype Result<+T> = Ok(value: T) | Err(message: string)

  /** The outcome of an operation that returns nothing but may throw. */
  datatype Outcome = Pass | Fail(message: string)
}
