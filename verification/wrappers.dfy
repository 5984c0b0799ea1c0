/** Optional values: JavaScript's `undefined`/`null` for a field a record may lack. */
module Wrappers {

  datatype Option<+T> = None | Some(value: T)
}
