/** The optional value shared by the modules of this model: None for a
    missing value or a null pointer, Some otherwise. */
module Wrappers {

  datatype Option<T> = None | Some(value: T)
}
