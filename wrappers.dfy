/** The optional value used for "no entry" results. */
module Wrappers {

  datatype Option<+T> = None | Some(value: T)

}
