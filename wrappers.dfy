/** Optional values, used where the page may hold "nothing usable" (an unparsable amount, a missing error reason). */
module Wrappers {

  datatype Option<+T> = None | Some(value: T)
}
