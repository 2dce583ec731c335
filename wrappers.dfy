/** Optional values, used for Go's `error` results (nil or an error value). */
module Wrappers {
  datatype Option<+T> = None | Some(value: T)
}
