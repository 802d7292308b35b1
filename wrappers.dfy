/** The optional value used where the PHP code signals absence by throwing or by `false`. */
module Wrappers {

  datatype Option<+T> = None | Some(value: T)

}
