/** The optional value used wherever the scripts return `None` or `-1`. */
module Wrappers {
  datatype Option<+T> = None | Some(value: T)
}
