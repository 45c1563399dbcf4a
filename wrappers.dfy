/** The optional value the components' `undefined` results become. */
module Wrappers {
  datatype Option<+T> = None | Some(value: T)
}
