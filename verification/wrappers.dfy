/** The optional value used wherever the dashboard code passes `None`. */
module Wrappers {

  /** `None` models Python's `None`; `Some(v)` a present value. */
  datatype Option<+T> = None | Some(value: T)
}
