/** The Some/None datatype that stands for the tracker's `null`-able fields. */
module Wrappers {

  datatype Option<+T> = None | Some(value: T)
}
