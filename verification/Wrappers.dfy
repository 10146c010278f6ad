/** What several models share: optional values, and the null pointer where indices stand for pointers. */
module Wrappers {

  datatype Option<T> = None | Some(value: T)

  const NULL: int := -1
}
