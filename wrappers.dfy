/** The optional value used where the source returns "nothing found". */
module Wrappers {
  datatype Option<+T> = None | Some(value: T)
}
