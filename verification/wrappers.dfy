/** Optional values: `None` stands for Python's `None` wherever the source
    accepts it as an ordinary value. */
module Wrappers {

  datatype Option<+T> = None | Some(value: T)
}
