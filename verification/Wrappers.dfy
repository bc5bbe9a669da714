/** Optional values, used where the program passes `None` or leaves a key out. */
module Wrappers {

  datatype Option<+T> = None | Some(value: T)
}
