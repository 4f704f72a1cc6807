/** The nullable reference of the source (`GridNode?`, `VertexNode?`) becomes an Option. */
module Wrappers {
  datatype Option<+T> = None | Some(value: T)
}
