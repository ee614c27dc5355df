/** The Option datatype: a value or its absence (Python's None). */
module Wrappers {

  datatype Option<+T> = None | Some(value: T)
}
