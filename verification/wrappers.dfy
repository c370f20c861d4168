/** The optional-value datatype shared by the modules of the appointment model. */
module Wrappers {

  /** A value that may be absent: a failed parse, a missing row. */
  datatype Option<+T> = None | Some(value: T)
}
