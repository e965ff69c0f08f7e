/** Small shared datatypes. */
module Wrappers {

  /** A value that may be absent; `None` stands for a decode error or a missing file. */
  datatype Option<+T> = None | Some(value: T)
}
