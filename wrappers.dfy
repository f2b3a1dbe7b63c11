/** A value that may be missing (an absent tag, a rejected item). */
module Wrappers {

  datatype Option<+T> = None | Some(value: T)
}
