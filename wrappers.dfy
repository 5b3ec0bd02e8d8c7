/** Python's `Optional[...]`: a value or `None`. */
module Wrappers {

  datatype Option<T> = None | Some(value: T)
}
