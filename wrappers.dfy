/** Optional values, used wherever the JavaScript source yields `undefined`
    or a value that may be absent. */
module Wrappers {

  datatype Option<+T> = None | Some(value: T)
}
