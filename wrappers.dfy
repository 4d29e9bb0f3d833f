/** The optional value used for the editing cursor (JavaScript's `null` or an index). */
module Wrappers {

  datatype Option<+T> = None | Some(value: T)
}
