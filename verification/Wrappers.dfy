/** The conventional Some/None datatype, standing for the source's null and undefined. */
module Wrappers {
  datatype Option<+T> = None | Some(value: T)
}
