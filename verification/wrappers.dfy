/** The optional-value type used for "reply / no reply". */
module Wrappers {

  datatype Option<+T> = None | Some(value: T)
}
