/** The optional-value type used for the source's `undefined`. */
module Wrappers {

  /** `None` stands for a missing property or an `undefined` result. */
  datatype Option<+T> = None | Some(value: T)
}
