/** The optional-value wrapper shared by every module of the model. */
module Wrappers {

  /** A value that may be missing: JavaScript's `null` / `-1` sentinels. */
  datatype Option<+T> = None | Some(value: T)
}
