/** The optional value used for a record's image path and for parse results. */
module Wrappers {

  datatype Option<+T> = None | Some(value: T)

}
