/** Option, used where the PHP code returns `false` or `null` for "nothing". */
module Wrappers {
  datatype Option<+T> = None | Some(value: T)
}
