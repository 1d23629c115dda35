/** Optional values, used for lookups that may find nothing and for Go's `error` results. */
module Wrappers {

  datatype Option<+T> = None | Some(value: T)

}
