/** The Option datatype used for the nullable columns and for lookups that can miss. */
module Wrappers {

  datatype Option<+T> = None | Some(value: T)
}
