/** The optional value used for browser outcomes that may be absent: a
    cancelled prompt, an empty storage slot, a file dialog closed without
    a choice, an export that emits nothing. */
module Wrappers {

  datatype Option<+T> = None | Some(value: T)
}
