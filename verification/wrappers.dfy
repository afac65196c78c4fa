/** An optional value, used where the source either produces something or does nothing. */
module Wrappers {

  datatype Option<+T> = None | Some(value: T)
}
