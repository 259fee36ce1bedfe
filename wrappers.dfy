/** The optional value used for "no touch in progress" and "no direction change". */
module Wrappers {
  datatype Option<+T> = None | Some(value: T)
}
