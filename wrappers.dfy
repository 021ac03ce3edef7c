/** Option and Result, for values the source leaves `undefined` and for
    operations that throw. */
module Wrappers {

  /** `None` stands for JavaScript's `null` or `undefined`. */
  datatype Option<+T> = None | Some(value: T)

  /** `Err` stands for a rejected promise or a thrown error. */
  datatype Result<+T, +E> = Ok(value: T) | Err(error: E)
}
