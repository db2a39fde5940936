/** The optional value used for the storage slot and for the `eg` namespace lookup. */
module Wrappers {

  datatype Option<+T> = None | Some(value: T)
}
