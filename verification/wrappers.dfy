/** Option and Result datatypes shared by the lottery modules. */
module Wrappers {

  /** A value that may be absent, such as a file that may not exist. */
  datatype Option<+T> = None | Some(value: T)

  /** Either a value or the error that prevented computing it. */
  datatype Result<+R, +E> = Success(value: R) | Failure(error: E)
}
