/** The optional-value datatype used for table lookups and the line reader. */
module Wrappers {

  datatype Option<+T> = None | Some(value: T)
}
