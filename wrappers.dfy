/** Optional values: the model's stand-in for `null`/`undefined` results
    (a regex that did not match, a missing header, a failed fetch). */
module Wrappers {

  datatype Option<+T> = None | Some(value: T)
}
