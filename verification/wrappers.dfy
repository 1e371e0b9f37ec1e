/** The optional-value datatype used for the record fields that JSON storage may omit. */
module Wrappers {

  /** `None` stands for a field that is `undefined` after parsing the stored JSON. */
  datatype Option<+T> = None | Some(value: T)
}
