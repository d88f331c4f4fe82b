/** Optional values: `None` stands for Go's nil result. */
module Wrappers {
  datatype Option<+T> = None | Some(value: T)
}
