/** The optional value used for C's NULL-or-pointer returns. */
module Wrappers {

  datatype Option<+T> = None | Some(value: T)
}
