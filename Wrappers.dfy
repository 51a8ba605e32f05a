/** The optional value used where the source has a nullable or possibly absent field. */
module Wrappers {

  datatype Option<+T> = None | Some(value: T)

}
