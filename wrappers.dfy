/** Optional values: a C# `null` reference, or an operation that reports failure instead of a value. */
module Wrappers {

  datatype Option<+T> = None | Some(value: T)
}
