/** Optional values and results with an error, used for the absent responses of the
    remote link and for the exception raised by the image loader. */
module Wrappers {

  /** A response or nothing (Python's `None`). */
  datatype Option<+T> = None | Some(value: T)

  /** A value, or the message of the exception the Python code raises instead. */
  datatype Result<+T, +E> = Ok(value: T) | Err(error: E)
}
