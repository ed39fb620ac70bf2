/** The optional value used for file contents that may be missing and for readers that may find nothing. */
module Wrappers {

  datatype Option<+T> = None | Some(value: T)
}
