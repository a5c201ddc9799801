/** The nullable references of the catalogue (a parent path, a category id, a lookup result). */
module Wrappers {
  datatype Option<+T> = None | Some(value: T)
}
