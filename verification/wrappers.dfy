/** Optional values, used for attributes that may be absent and for
    "first position satisfying ..." searches. */
module Wrappers {

  datatype Option<+T> = None | Some(value: T)
}
