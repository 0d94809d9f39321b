/** The control characters the line editor treats specially. */
module Ascii {

  const NUL: char := 0 as char
  const LF: char := '\n'
  const CR: char := '\r'
  const ESC: char := 27 as char
  const DEL: char := 127 as char
}
