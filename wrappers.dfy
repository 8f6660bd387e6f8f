/** Optional values, for lookups that may find nothing and form fields a request may omit. */
module Wrappers {

  datatype Option<+T> = None | Some(value: T)
}
