/** Option and Result, used for PHP's null results and thrown exceptions. */
module Wrappers {

  datatype Option<+T> = None | Some(value: T)

  /** `Err` stands for a thrown exception; `Ok` for a value returned normally. */
  datatype Result<+T, +E> = Ok(value: T) | Err(error: E)
}
