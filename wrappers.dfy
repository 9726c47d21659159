/** Optional values, and results that carry either a value or the Python
    exception the library would raise. */
module Wrappers {

  datatype Option<T> = None | Some(value: T)

  /** The two exception classes the modelled code can raise. */
  datatype Error = ValueError(message: string) | TypeError(message: string)

  datatype Result<T> = Success(value: T) | Failure(error: Error)
}
