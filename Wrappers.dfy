/** Python's `None`-or-value, as the parsers use it for a reading that may be absent. */
module Wrappers {

  datatype Option<+T> = None | Some(value: T)
}
