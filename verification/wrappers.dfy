/** The optional value used wherever the source returns a null, throws, or reports "not found". */
module Wrappers {
  datatype Option<+T> = None | Some(value: T)
}
