/** Option and Result values shared by every module of the model. */
module Wrappers {
  datatype Option<T> = None | Some(value: T)

  /** What a service function returns, or the error it throws instead. */
  datatype Result<T, E> = Success(value: T) | Failure(error: E)
}
