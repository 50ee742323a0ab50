/** Optional values, as used throughout the model. */
module Wrappers {

  /** `None` stands for JavaScript's `null`/`undefined` (or `NaN` for a number). */
  datatype Option<+T> = None | Some(value: T)
}
