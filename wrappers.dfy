/** The optional value used for the source's nullable references and nullable value types. */
module Wrappers {

  datatype Option<+T> = None | Some(value: T)
}
