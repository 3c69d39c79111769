/** Option type used where the source throws an exception that a caller catches. */
module Wrappers {
  datatype Option<+T> = None | Some(value: T)
}
