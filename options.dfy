/** The optional value used for a lookup that may miss (a null `Node` in the source). */
module Options {
  datatype Option<+T> = None | Some(value: T)
}
