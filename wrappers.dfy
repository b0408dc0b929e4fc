/** Optional values. A pandas cell that is NaN (or that numeric coercion turned into NaN) is `None`. */
module Wrappers {

  datatype Option<+T> = None | Some(value: T)

}
