/** Option: an absent subkey table, or padding that cannot be removed. */
module Wrappers {

  datatype Option<+T> = None | Some(value: T)
}
