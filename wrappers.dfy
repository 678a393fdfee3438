/** Optional values, for lookups that may find nothing (a path that does not exist). */
module Wrappers {

  datatype Option<+T> = None | Some(value: T)
}
