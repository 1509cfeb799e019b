/** The optional value used wherever the rule's JavaScript reads a property
    that may be `undefined` or `null`. */
module Wrappers {

  datatype Option<+T> = None | Some(value: T)
}
