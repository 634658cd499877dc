/** The conventional optional value, used where a reading of the input can fail. */
module Wrappers {

  datatype Option<+T> = None | Some(value: T)
}
