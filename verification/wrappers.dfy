/** The optional value used for a cell's colour and score owner. */
module Wrappers {

  datatype Option<+T> = None | Some(value: T)

}
