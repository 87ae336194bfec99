/** Optional values: the `null` that a store lookup returns when nothing matches. */
module Wrappers {
  datatype Option<+T> = None | Some(value: T)
}
