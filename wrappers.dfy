/** The optional value used for reads that can fail and parses that can reject. */
module Wrappers {
  datatype Option<+T> = None | Some(value: T)
}
