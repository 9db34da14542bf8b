/** Optional values, for the places where the source reads a value that may be missing. */
module Wrappers {

  datatype Option<+T> = None | Some(value: T)
}
