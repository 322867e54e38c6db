/** The optional value returned by a dictionary lookup (Python's `None` or a value). */
module Wrappers {
  datatype Option<T> = None | Some(value: T)
}
