/** Options for the nullable values of the sources. */
module Wrappers {
  datatype Option<+T> = None | Some(value: T)
}
