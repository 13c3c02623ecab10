/** The optional value used wherever the simulator holds a nullable reference
    (the selection) or a search can come back empty (a hit test, `findIndex`). */
module Wrappers {

  datatype Option<+T> = None | Some(value: T)
}
