/** The missing-value marker used for pandas' NaN / NaT cells. */
module Wrappers {

  datatype Option<+T> = None | Some(value: T)
}
