/** std::char_traits: a character, or eof, which is no character. */
module CharTraits {
  import opened Buffers

  type IntType = c: int | -1 <= c < 256

  const EOF: IntType := -1

  /** Any other value in place of eof. */
  function NotEof(c: IntType): (r: IntType)
    ensures r != EOF && (c != EOF ==> r == c)
  {
    if c == EOF then 0 else c
  }

  /** The character, if it is one. */
  function Chars(c: IntType): seq<Byte> {
    if c == EOF then [] else [c]
  }
}
