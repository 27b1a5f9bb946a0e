/** Optional values, for the places where Python uses None. */
module Wrappers {

  datatype Option<+T> = None | Some(value: T)

}
