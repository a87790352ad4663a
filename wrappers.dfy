/** The optional value the model uses wherever the editor works with `null`
    or `undefined`: a missing registry entry, a missing sibling, a cancelled
    script run. */
module Wrappers {

  datatype Option<+T> = None | Some(value: T)
}
