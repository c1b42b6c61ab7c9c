/** The optional value the model uses for nullable pointers and for parses
    that may find nothing. */
module Wrappers {

  datatype Option<T> = None | Some(value: T)
}
