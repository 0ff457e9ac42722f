/** Optional values: Go's nil pointer or nil interface stands as `None`. */
module Wrappers {

  datatype Option<+T> = None | Some(value: T)
}
