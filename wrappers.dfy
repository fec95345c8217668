/** The optional value returned by every lookup in the sketch store. */
module Wrappers {
  datatype Option<+T> = None | Some(value: T)
}
