/** The optional value used where the dashboard may produce nothing (no regex match, no chart). */
module Wrappers {

  datatype Option<+T> = None | Some(value: T)
}
