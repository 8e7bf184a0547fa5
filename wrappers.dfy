/** Optional values: `None` stands for JavaScript's `undefined` or `NaN` results. */
module Wrappers {
  datatype Option<+T> = None | Some(value: T)
}
