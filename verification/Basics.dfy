/** What several models need. */
module Basics {
  datatype Option<T> = None | Some(value: T)
}
