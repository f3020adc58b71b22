/** The optional value shared by the modules of this model: Python's `None`
    or a present value. */
module Wrappers {
  datatype Option<+T> = None | Some(value: T)
}
