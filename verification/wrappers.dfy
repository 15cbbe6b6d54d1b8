/** Optional values, standing for JavaScript's null/undefined and for
    Java calls that may throw. */
module Wrappers {
  datatype Option<+T> = None | Some(value: T)
}
