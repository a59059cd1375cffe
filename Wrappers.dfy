/** The optional result used wherever the modelled code throws an exception:
    `None` stands for "the call throws", `Some(v)` for "the call returns v". */
module Wrappers {

  datatype Option<+T> = None | Some(value: T)
}
