/** The optional value that stands for Go's nil-able `*string`. */
module Wrappers {

  datatype Option<T> = None | Some(value: T)
}
