/** The optional value used wherever the converter returns `None` or skips a match. */
module Wrappers {

  datatype Option<+T> = None | Some(value: T)
}
