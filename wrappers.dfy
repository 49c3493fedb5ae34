/** The optional value used for "no sort key chosen yet". */
module Wrappers {
  datatype Option<+T> = None | Some(value: T)
}
