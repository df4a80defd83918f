/** The optional value that stands in for a nullable pointer. */
module Wrappers {

  /** `None` plays the part of NULL. */
  datatype Option<+T> = None | Some(value: T)
}
