/** Optional values: a text box that yields a number, or does not. */
module Wrappers {

  datatype Option<+T> = None | Some(value: T)
}
