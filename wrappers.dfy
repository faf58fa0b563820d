/** The optional value used where the source has `undefined`, `NaN` or `null`. */
module Wrappers {

  datatype Option<+T> = None | Some(value: T)
}
