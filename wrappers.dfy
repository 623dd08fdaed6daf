/** Small value wrappers shared by the models: a nullable value. */
module Wrappers {

  /** A value that may be absent: Java's `null` for a reference that was never set. */
  datatype Option<+T> = None | Some(value: T)
}
