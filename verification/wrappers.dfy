/** Carriers for a Java null and for a call that returns or throws: `Option`
    stands for a nullable value or an `Optional`, `Result` for the value
    returned or the exception thrown. */
module Wrappers {

  datatype Option<+T> = None | Some(value: T)

  datatype Result<+T, +E> = Success(value: T) | Failure(error: E)
}
