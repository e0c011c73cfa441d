/** Results of partial operations. */
module Wrappers {

  datatype Option<+T> = None | Some(value: T)
}
