/** The optional value used for a reply section that may be absent. */
module Wrappers {

  datatype Option<+T> = None | Some(value: T)
}
