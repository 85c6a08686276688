/** The optional value used wherever the source has `undefined` or `null` as "nothing". */
module Wrappers {

  datatype Option<+T> = None | Some(value: T)
}
