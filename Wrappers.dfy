/** The optional value used where the source uses a nullable reference or string. */
module Wrappers {

  datatype Option<+T> = None | Some(value: T)

}
