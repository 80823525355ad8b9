/** The optional value that Python spells `None` or a value. */
module Wrappers {
  datatype Option<+T> = None | Some(value: T)
}
