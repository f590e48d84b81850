/** The optional-value datatype used for the store's "maybe undefined" fields. */
module Wrappers {

  /** `None` plays the part of JavaScript's `undefined`. */
  datatype Option<+T> = None | Some(value: T)
}
