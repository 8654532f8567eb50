/** The optional value used for results that may be absent (a failed lstat, a failed lookup). */
module Wrappers {
  datatype Option<+T> = None | Some(value: T)
}
