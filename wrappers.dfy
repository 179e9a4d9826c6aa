/** The optional value used for "no node" (Go's nil, Python's None). */
module Wrappers {

  datatype Option<+T> = None | Some(value: T)

}
