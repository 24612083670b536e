/** An optional value, used where the source compares against `undefined` or a lookup can miss. */
module Wrappers {
  datatype Option<+T> = None | Some(value: T)
}
