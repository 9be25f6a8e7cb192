/** The optional value used for Python's `None`-or-value fields and for
    library calls that can raise. */
module Wrappers {
  datatype Option<+T> = None | Some(value: T)
}
