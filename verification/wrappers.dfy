/** Optional values, for tree accessors that may answer null. */
module Wrappers {

  datatype Option<+T> = None | Some(value: T)
}
