/** Optional values: the outcome of a computation that may fail. */
module Wrappers {

  /** `None` stands for a failure, `Some(v)` for a result `v`. */
  datatype Option<+T> = None | Some(value: T)
}
