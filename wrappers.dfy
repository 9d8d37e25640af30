/** The zero-or-one result the rule hands back to its host. */
module Wrappers {

  datatype Option<+T> = None | Some(value: T)
}
