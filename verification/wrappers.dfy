/** Optional values: a missing reference node, an unknown id or template. */
module Wrappers {
  datatype Option<+T> = None | Some(value: T)
}
