/** Optional values: Swift's `T?` (`nil` or a wrapped value). */
module Wrappers {

  datatype Option<+T> = None | Some(value: T)
}
