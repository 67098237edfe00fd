/** Option and Result: the failure-carrying wrappers the ticket store returns. */
module Wrappers {

  /** A value that may be absent; the model of Python's `Optional[...]`, with `None` as the absent marker. */
  datatype Option<+T> = None | Some(value: T)

  /** Either a value or an error; the model of a handler that may raise. */
  datatype Result<+T, +E> = Ok(value: T) | Err(error: E)
}
