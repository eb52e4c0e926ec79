/** A value that may be absent: Ruby's `nil` where the source returns or holds one. */
module Wrappers {
  datatype Option<+T> = None | Some(value: T)
}
