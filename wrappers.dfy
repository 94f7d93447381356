/** Optional values and results that carry either a value or an error. */
module Wrappers {

  /** `None` also stands for JavaScript's `undefined` where the source can produce it. */
  datatype Option<+T> = None | Some(value: T)

  datatype Result<+R, +E> = Success(value: R) | Failure(error: E)
}
