/** The optional value used where the engine answers "an action, or nothing". */
module Wrappers {

  /** The conventional Some/None datatype; `None` plays Python's `None`. */
  datatype Option<+T> = None | Some(value: T)
}
