/** The optional value used wherever the source returns `null` or leaves a field `undefined`. */
module Wrappers {
  datatype Option<+T> = None | Some(value: T)
}
