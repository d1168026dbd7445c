/** Optional values: the model's stand-in for Java's nullable references. */
module Wrappers {

  /** `None` is a `null` reference; `Some(v)` a present value. */
  datatype Option<+T> = None | Some(value: T)
}
