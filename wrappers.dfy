/** An optional value: JavaScript's `undefined` / absent property on one side, a value on the other. */
module Wrappers {
  datatype Option<+T> = None | Some(value: T)
}
