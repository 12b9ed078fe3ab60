/** Small helpers shared by the other modules. */
module Wrappers {

  /** A value that may be absent. */
  datatype Option<T> = None | Some(value: T)

  /** A blank: a space or a tab. */
  predicate IsBlank(c: char) { c == ' ' || c == '\t' }
}
