/** The optional value used for the injected active route record. */
module Wrappers {

  datatype Option<+T> = None | Some(value: T)

}
