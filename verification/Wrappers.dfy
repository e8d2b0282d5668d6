/** The optional-value datatype used for "no frame before the input ran out". */
module Wrappers {

  datatype Option<+T> = None | Some(value: T)
}
