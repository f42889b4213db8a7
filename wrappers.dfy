/** Option and Result: null references and thrown exceptions of the modelled code. */
module Wrappers {

  /** `None` stands for a .NET null reference. */
  datatype Option<+T> = None | Some(value: T)

  /** `Failure` stands for an exception thrown to the caller. */
  datatype Result<+R, +E> = Success(value: R) | Failure(error: E)
}
