/** The absent-or-present value that the colour library returns as `T | undefined`. */
module Wrappers {

  datatype Option<+T> = None | Some(value: T)
}
