/** An optional value: the tracker's "no detection" marker is `None`. */
module Wrappers {

  datatype Option<+T> = None | Some(value: T)

}
