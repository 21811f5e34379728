/** The usual optional-value datatype, for parses that can fail. */
module Wrappers {
  datatype Option<+T> = None | Some(value: T)
}
