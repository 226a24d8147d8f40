/** The one result shape the whole project shares: a value or its absence (a null pointer, `!0`, -1). */
module Wrappers {
  datatype Option<+T> = None | Some(value: T)
}
