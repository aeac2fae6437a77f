/** What several modules share. */
module Basics {
  datatype Option<+T> = None | Some(value: T)

  /** unicode.IsSpace on Latin-1. */
  predicate IsSpace(c: char)
  {
    c == ' ' || '\t' <= c <= '\r' || c == 0x85 as char || c == 0xA0 as char
  }
}
