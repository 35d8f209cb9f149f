/** The optional result the solver and the cell selection return: Python's `None` or a value. */
module Wrappers {
  datatype Option<+T> = None | Some(value: T)
}
