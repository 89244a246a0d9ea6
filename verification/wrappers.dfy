/** Option and Result, used for "document or nothing" lookups and for the
    service operations that either succeed or raise one of the API errors. */
module Wrappers {

  datatype Option<+T> = None | Some(value: T)

  datatype Result<+T, +E> = Ok(value: T) | Err(error: E)
}
