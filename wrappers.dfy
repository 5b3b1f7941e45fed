/** Small value wrappers shared by the other modules. */
module Wrappers {

  /** An optional value: `None` where the source has no entry, no message or no reply. */
  datatype Option<+T> = None | Some(value: T)
}
