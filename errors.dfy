/** The exceptions the modelled members throw, as values, and the pointer
    that may be null. */
module Errors {
  /** A pointer that may be null. */
  datatype Option<T> = None | Some(value: T)

  /** std::out_of_range, std::length_error, and the CEGUI exceptions the
      event and property sets throw. */
  datatype Error =
    | OutOfRange          // std::out_of_range
    | LengthError         // std::length_error
    | AlreadyExists       // AlreadyExistsException
    | UnknownObject       // UnknownObjectException
    | NullObject          // NullObjectException

  /** A member that returns nothing or throws. */
  datatype Outcome = Success | Failure(error: Error)

  /** A member that returns a value or throws. */
  datatype Result<T> = Ok(value: T) | Fail(error: Error)
}
