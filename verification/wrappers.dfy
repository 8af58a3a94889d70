/** The optional-value datatype used across the model. `None` stands for
    JavaScript's `undefined`: a property that is not there at all. */
module Wrappers {

  datatype Option<+T> = None | Some(value: T)
}
