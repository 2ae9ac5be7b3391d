/** An optional value: JavaScript's `null` or a missing stored item. */
module Wrappers {

  datatype Option<+A> = None | Some(value: A)
}
