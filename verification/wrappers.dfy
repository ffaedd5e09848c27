/** Small failure-compatible datatypes shared by the other modules. */
module Wrappers {

  /** An optional value; JavaScript's `undefined` field becomes `None`. */
  datatype Option<+T> = None | Some(value: T)
}
