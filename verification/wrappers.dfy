/** Optional values: `None` stands for JavaScript's `null`/`undefined` slot. */
module Wrappers {

  datatype Option<+T> = None | Some(value: T)
}
