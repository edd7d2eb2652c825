/** The optional value used wherever the model can fail to produce a result. */
module Wrappers {

  datatype Option<+T> = None | Some(value: T)
}
