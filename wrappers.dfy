/** Nullable references of the modelled Java code are written as Option values. */
module Wrappers {

  /** `None` stands for a Java `null`, `Some(v)` for a present value `v`. */
  datatype Option<+T> = None | Some(value: T)
}
