/** The optional-value type used for a table's source position. */
module Wrappers {

  datatype Option<+T> = None | Some(value: T)

}
