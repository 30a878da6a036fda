/** The optional-value datatype used throughout the model: Python's `None`
    and the "the call raised" outcome of an oracle are both `None` here. */
module Wrappers {

  datatype Option<+T> = None | Some(value: T)
}
