/** Values that may be absent: the result of reading a glyph string back. */
module Optional {

  datatype Option<+T> = None | Some(value: T)

}
