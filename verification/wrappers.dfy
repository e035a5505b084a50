/** Optional values and results with an error, the two shapes the package
    pipeline uses for JavaScript's `null` and for thrown exceptions. */
module Wrappers {

  /** `None` stands for JavaScript's `null` / `undefined`. */
  datatype Option<+T> = None | Some(value: T)

  /** `Err` stands for an exception thrown by the modelled code. */
  datatype Result<+T, +E> = Ok(value: T) | Err(error: E)
}
