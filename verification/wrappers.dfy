/** The optional-value type used wherever the modelled Python code returns `None`. */
module Wrappers {

  datatype Option<+T> = None | Some(value: T)
}
