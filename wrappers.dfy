/** The optional value used wherever the source yields `null`, `NaN` or throws. */
module Wrappers {
  datatype Option<+T> = None | Some(value: T)
}
