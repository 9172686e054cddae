/** Option datatype: an explicit "no data" result where the source would produce NaN. */
module Wrappers {
  datatype Option<+T> = None | Some(value: T)
}
