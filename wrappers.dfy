/** The optional value used wherever the source has a nullable reference or an absent field. */
module Wrappers {

  datatype Option<+T> = None | Some(value: T)
}
