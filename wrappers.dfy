/** The optional value used where the JavaScript source produces NaN. */
module Wrappers {

  datatype Option<+T> = None | Some(value: T)
}
