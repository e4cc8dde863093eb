/** Optional values and error-or-value results, used in place of Python's
    None and of exceptions that a caller catches or lets escape. */
module Wrappers {

  datatype Option<+T> = None | Some(value: T)

  datatype Result<+T, +E> = Ok(value: T) | Err(error: E)
}
