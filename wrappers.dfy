/** Optional values: a field that a JSON response may leave out. */
module Wrappers {

  datatype Option<+T> = None | Some(value: T)
}
