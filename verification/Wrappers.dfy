/** Optional values, for nullable columns and lookups that can miss. */
module Wrappers {
  datatype Option<+T> = None | Some(value: T)
}
