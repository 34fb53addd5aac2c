/** Small value wrappers shared by the other modules. */
module Common {

  /** Ruby's `nil` or a value. */
  datatype Option<+T> = None | Some(value: T)
}
