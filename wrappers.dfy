/** The optional value used by the hand-written regex scanners. */
module Wrappers {
  datatype Option<+T> = None | Some(value: T)
}
