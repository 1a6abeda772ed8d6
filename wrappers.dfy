/** Option and Result, the two ways a lookup or a handler reports "nothing" or "failed". */
module Wrappers {

  /** A value that may be absent: a JavaScript `undefined`/`null`, or an SQL NULL. */
  datatype Option<+T> = None | Some(value: T)

  /** The outcome of a handler that can reject its request. */
  datatype Result<+T, +E> = Ok(value: T) | Err(error: E)
}
