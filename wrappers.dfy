/** Optional values, standing for Python's `None`-or-value results and attributes. */
module Wrappers {

  datatype Option<+T> = None | Some(value: T)

}
