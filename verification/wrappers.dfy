/** Go's nil, for values of an interface type. */
module Wrappers {

  /** `None` stands for a nil interface value; `Some(v)` for a non-nil one. */
  datatype Option<+T> = None | Some(value: T)
}
