/** The "value or nothing" result that the library signals with `null`. */
module Wrappers {

  datatype Option<+T> = None | Some(value: T)
}
