/** Optional values, for the places where the source either produces a
    value or stops with an exception. */
module Wrappers {

  datatype Option<+T> = None | Some(value: T)

}
