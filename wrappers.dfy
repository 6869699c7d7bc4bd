/** Optional values: a missing HTML element, an absent attribute, or a
    JavaScript value that is `undefined`/`null`. */
module Wrappers {

  datatype Option<+T> = None | Some(value: T)
}
