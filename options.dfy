/** The optional value used for an absent fill colour and an unknown glyph. */
module Options {
  datatype Option<T> = None | Some(value: T)
}
