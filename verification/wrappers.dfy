/** Python's `Optional`, used throughout the model. */
module Wrappers {

  /** `None` or `Some(value)`, as in `Optional[T]`. */
  datatype Option<+T> = None | Some(value: T)
}
