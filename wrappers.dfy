/** Optional values: `None` stands for a JavaScript NaN or a missing entry. */
module Wrappers {
  datatype Option<+T> = None | Some(value: T)
}
