/** Optional values: pandas' not-a-number and Python's failed conversions. */
module Wrappers {

  datatype Option<+T> = None | Some(value: T)
}
