/**
 * Bytes and the ASCII constants the frame format uses.
 *
 * A byte is carried as the character whose code is that byte, so a Rust
 * byte-string literal `b"CONNECT\n"` is the Dafny string literal
 * `"CONNECT\n"` read as a `seq<byte>`, and the bytes of an ASCII `&str`
 * (`str::as_bytes`) are its characters unchanged.
 */
module Bytes {

  type byte = c: char | c <= 0xFF as char

  const NUL: byte := '\0'
  const LF: byte := '\n'
  const CR: byte := '\r'
  const COLON: byte := ':'
  const BACKSLASH: byte := '\\'
  const LOWER_C: byte := 'c'
  const LOWER_N: byte := 'n'
  const LOWER_R: byte := 'r'
}
