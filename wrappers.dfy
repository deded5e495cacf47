/** Small helper datatypes shared by the other modules. */
module Wrappers {

  /** An optional value; `None` stands for a null reference or a missing entry. */
  datatype Option<+T> = None | Some(value: T)
}
