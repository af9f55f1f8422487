/** Results that may be missing or may carry an error. */
module Wrappers {
  datatype Option<+T> = None | Some(value: T)
}
