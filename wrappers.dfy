/** The optional value the tools return where Python returns `None`. */
module Wrappers {

  datatype Option<+T> = None | Some(value: T)
}
