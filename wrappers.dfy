/** The optional value used for "no match" / "no occurrence" results. */
module Wrappers {
  datatype Option<+T> = None | Some(value: T)
}
