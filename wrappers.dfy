/** A value that may be absent: a C function's NULL result, a Ruby `nil`,
    a regular expression that did not match. */
module Wrappers {
  datatype Option<+T> = None | Some(value: T)
}
