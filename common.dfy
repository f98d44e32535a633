/** Small value types shared by the services. */
module Common {

  /** Python's `Optional[T]`: `None` or a present value. */
  datatype Option<T> = None | Some(value: T)

  /** A call that either returns a value or raises an error. */
  datatype Result<T, E> = Success(value: T) | Failure(error: E)

  /** A validation-error payload: field name to the list of messages for it. */
  type Errors = map<string, seq<string>>
}
