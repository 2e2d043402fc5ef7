/** The optional-value type shared by the other modules. */
module Wrappers {

  /** A value that may be absent: a missing HTML attribute, a page that did not parse. */
  datatype Option<+T> = None | Some(value: T)
}
