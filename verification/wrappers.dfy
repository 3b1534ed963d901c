/** The optional-value datatype used wherever the modelled JavaScript yields
    `null`/"no match" or a loop that may not end. */
module Wrappers {

  datatype Option<+T> = None | Some(value: T)

}
