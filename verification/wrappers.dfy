/** The optional value used for attributes that may be unset and for readers that may fail. */
module Wrappers {
  datatype Option<+T> = None | Some(value: T)
}
