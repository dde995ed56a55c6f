/** The optional value used for JavaScript's `null` and for "no match". */
module Wrappers {

  datatype Option<+T> = None | Some(value: T)
}
