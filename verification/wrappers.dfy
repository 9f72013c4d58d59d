/** The Some/None datatype used in place of the source's `null`. */
module Wrappers {

  datatype Option<+T> = None | Some(value: T)
}
