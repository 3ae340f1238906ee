/**
 Bytes, the 16-bit units of strings, and the hexadecimal digits of percent escapes.
 */
module Hex {
  type Byte = x: int | 0 <= x < 0x100
  type Unit = x: int | 0 <= x < 0x1_0000

  const PERCENT: Byte := 0x25

  /** A digit below 16 in upper case. */
  function Upper(d: int): (r: Byte)
    requires 0 <= d < 16
  {
    if d < 10 then 0x30 + d else 0x41 + (d - 10)
  }

  predicate IsHex(c: Byte) {
    0x30 <= c <= 0x39 || 0x61 <= c <= 0x66 || 0x41 <= c <= 0x46
  }

  function UnHex(c: Byte): (r: Byte)
    ensures r < 16
  {
    if 0x30 <= c <= 0x39 then c - 0x30
    else if 0x61 <= c <= 0x66 then c - 0x61 + 10
    else if 0x41 <= c <= 0x46 then c - 0x41 + 10
    else 0
  }

  predicate AlphaNumeric(c: char) {
    'A' <= c <= 'Z' || 'a' <= c <= 'z' || '0' <= c <= '9'
  }

  /** Digits are read in either case, and nothing else is one. */
  lemma HexDigits(d: nat, c: Byte)
    requires d < 16
    ensures Upper(d) as char == "0123456789ABCDEF"[d]
    ensures UnHex("0123456789abcdef"[d] as int) == d && UnHex("0123456789ABCDEF"[d] as int) == d
    ensures IsHex(c) <==> c as char in "0123456789abcdefABCDEF"
  {
  }

  lemma UpperIsHex(d: int)
    requires 0 <= d < 16
    ensures IsHex(Upper(d)) && UnHex(Upper(d)) == d && Upper(d) < 0x80 && Upper(d) != 0x75
  {
  }
}
