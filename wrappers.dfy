/** An optional value: Go's `nil` results and unbounded limits. */
module Wrappers {
  datatype Option<+T> = None | Some(value: T)
}
