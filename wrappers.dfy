/** The optional-value type used for absent rows and for the error return. */
module Wrappers {

  datatype Option<+T> = None | Some(value: T)
}
