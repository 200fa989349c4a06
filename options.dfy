/** The optional value of the source language: a node's stored value and the result of a lookup. */
module Options {
  datatype Option<T> = None | Some(value: T)
}
