/** Types shared by every module of the model. */
module Wrappers {
  /** A value that may be missing (`None` or NULL). */
  datatype Option<+T> = None | Some(value: T)
}
