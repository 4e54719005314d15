/** Optional values: JavaScript's `undefined` for an absent optional field,
    argument or search result. */
module Wrappers {

  datatype Option<+T> = None | Some(value: T)
}
