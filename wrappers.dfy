/** Optional values: `None` stands for the `default(T)` the source returns for a
    reference type T (null). */
module Wrappers {
  datatype Option<+T> = None | Some(value: T)
}
