/** The control characters that the shell and the terminal exchange. */
module Ascii {
  const NUL := '\0'
  const ETX := 0x03 as char
  const BS := 0x08 as char
  const LF := '\n'
  const CR := '\r'
  const ESC := 0x1B as char
  const DEL := 0x7F as char
}

/** The greater and the smaller of two sizes. */
module Extremes {
  function Max(x: nat, y: nat): nat {
    if x < y then y else x
  }

  function Min(x: nat, y: nat): nat {
    if x < y then x else y
  }
}
