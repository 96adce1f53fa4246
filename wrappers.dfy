/** The optional value used for the source's `null` results. */
module Wrappers {
  datatype Option<+T> = None | Some(value: T)
}
