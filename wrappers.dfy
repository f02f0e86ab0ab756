/** The absent-or-present value that the readers return (Python's `None` or a value). */
module Wrappers {
  datatype Option<+T> = None | Some(value: T)
}
