/** An optional value: a dictionary lookup that may miss, a file that may not be scored. */
module Wrappers {

  datatype Option<+T> = None | Some(value: T)
}
