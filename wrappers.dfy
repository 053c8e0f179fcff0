/** The usual optional value: `None` stands for a lookup that failed. */
module Wrappers {
  datatype Option<+T> = None | Some(value: T)
}
