/** The optional value used wherever the source allows a reference to be null. */
module Wrappers {

  /** `None` plays the part of Java's `null`; `Some(v)` is a present value. */
  datatype Option<+T> = None | Some(value: T)
}
