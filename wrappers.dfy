/** The null-or-value convention of the source: `None` stands for null or undefined. */
module Wrappers {
  datatype Option<+T> = None | Some(value: T)
}
