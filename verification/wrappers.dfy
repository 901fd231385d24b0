/** Optional values: JavaScript's `null` / missing field, and the result of `Array.find`. */
module Wrappers {

  datatype Option<+T> = None | Some(value: T)
}
