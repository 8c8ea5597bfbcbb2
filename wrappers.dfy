/** Option and Result, used for the lookups and the exceptions of the decoder. */
module Wrappers {

  datatype Option<+T> = None | Some(value: T)

  /** `Ok` is a normal return, `Err` stands for an exception raised by the decoder. */
  datatype Result<+T, +E> = Ok(value: T) | Err(error: E)
}
