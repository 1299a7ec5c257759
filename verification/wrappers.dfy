/** The optional value used wherever the editor leaves a field `undefined`. */
module Wrappers {

  datatype Option<+T> = None | Some(value: T)
}
