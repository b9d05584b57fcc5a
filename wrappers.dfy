/** The optional value used wherever the source yields Python's `None`. */
module Wrappers {

  datatype Option<+T> = None | Some(value: T)
}
