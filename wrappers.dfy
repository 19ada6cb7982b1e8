/** Optional values, results and outcomes, and the failures the API reports. */
module Wrappers {

  datatype Option<+T> = None | Some(value: T)

  datatype Result<+T, +E> = Success(value: T) | Failure(error: E)

  /** The result of an operation that returns nothing (`Promise<void>`). */
  datatype Outcome<+E> = Pass | Fail(error: E)
}

module Errors {

  /** What a call can end with instead of a value. */
  datatype Failure =
    /** `Internal` error of the API's error hierarchy, identified by its title. */
    | Internal(title: string)
    /** An error raised by the database layer that nothing catches. */
    | DatabaseError
    /** A `TypeError` from reading a property of `undefined`. */
    | NullDereference

  const TokenCreationError: string := "Error on token creation"
  const SignOutError: string := "Error on sign out"
  const TokenFindError: string := "Error on user token find"
}
