/** Optional values: an absent liveness oracle, an absent replacement list. */
module Wrappers {
  datatype Option<+T> = None | Some(value: T)
}
