/** Option and Result datatypes: `None` stands for a Java `null` reference,
    `Failure` for an exception thrown to the caller. */
module Wrappers {

  datatype Option<+T> = None | Some(value: T)

  datatype Result<+R, +E> = Success(value: R) | Failure(error: E)
}
