/** Values that may be absent, shared by the notifier and the scanner. */
module Wrappers {
  datatype Option<T> = None | Some(value: T)
}
