/** Optional values, used wherever the source returns `Optional<T>` or `null`. */
module Wrappers {

  datatype Option<+T> = None | Some(value: T)
}
