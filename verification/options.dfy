/** The optional value used for decoded text and the visual anchor (Python's None). */
module Options {
  datatype Option<T> = None | Some(value: T)
}
