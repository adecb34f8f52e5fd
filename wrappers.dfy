/** The optional value used where vcdiff.js returns a block or `null`. */
module Wrappers {

  datatype Option<+T> = None | Some(value: T)

}
