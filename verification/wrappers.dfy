/** The optional-value datatype used for "nothing completed yet" and for
    parses that can fail. */
module Wrappers {

  datatype Option<+T> = None | Some(value: T)
}
