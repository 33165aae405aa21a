/** Optional values: an absent form field, a JavaScript `null` or `NaN`. */
module Wrappers {

  datatype Option<+T> = None | Some(value: T)
}
