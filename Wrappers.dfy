/** Small datatypes shared by the other modules. */
module Wrappers {

  /** A value that may be missing; `None` stands for input that ran out. */
  datatype Option<+T> = None | Some(value: T)
}
