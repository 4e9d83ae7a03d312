/** The optional-value wrapper shared by the modules of this project. */
module Wrappers {

  /** A value that may be absent: JavaScript's optional argument, C's nullable result. */
  datatype Option<+T> = None | Some(value: T)
}
