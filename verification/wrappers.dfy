/** Failure-carrying values shared by the model. */
module Wrappers {

  /** A value that may be missing: a form field that was not sent, or a read
      that raised instead of returning. */
  datatype Option<+T> = None | Some(value: T)
}
