/** An optional value, shared by the modules of this model. */
module Wrappers {

  /** A value that may be absent: a detected face, a matching log row. */
  datatype Option<+T> = None | Some(value: T)
}
