/** Bytes, byte strings and the few operations on C strings that every part of the daemon shares. */
module Bytes {

  type byte = bv8
  type bytes = seq<byte>

  datatype Option<+T> = None | Some(value: T)

  const NUL: byte := 0x00
  const TAB: byte := 0x09
  const LF: byte := 0x0A
  const CR: byte := 0x0D
  const SPACE: byte := 0x20
  const QUOTE: byte := 0x22
  const PERCENT: byte := 0x25
  const PLUS: byte := 0x2B
  const COMMA: byte := 0x2C
  const MINUS: byte := 0x2D
  const DOT: byte := 0x2E
  const SLASH: byte := 0x2F
  const COLON: byte := 0x3A

  /** A character of ASCII as a byte. */
  function Ascii(c: char): byte {
    if c as int < 128 then (c as int) as byte else NUL
  }

  function Min(a: int, b: int): int {
    if a < b then a else b
  }

  /** What `s[i]` reads when `s` is a C string: the terminating NUL past the end. */
  function At(s: bytes, i: nat): byte {
    if i < |s| then s[i] else NUL
  }

  /** The C string a buffer holds: everything before its first NUL. */
  function CStr(s: bytes): (r: bytes)
    ensures NUL !in r && r <= s
    ensures r == s || s[|r|] == NUL
  {
    if s == [] || s[0] == NUL then [] else [s[0]] + CStr(s[1..])
  }

  lemma CStrOfClean(s: bytes)
    requires NUL !in s
    ensures CStr(s) == s
  {}
}
