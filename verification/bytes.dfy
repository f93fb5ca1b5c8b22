/** Octets of the byte stream and the ASCII text that metadata blocks carry. */
module Bytes {
  /** One octet, as the reader sees it in its input span. */
  type byte = b: int | 0 <= b < 0x100

  const CR: byte := 0x0d
  const LF: byte := 0x0a
  const Colon: byte := 0x3a
  const Space: byte := 0x20

  /** The text a run of bytes spells, one character per byte (ASCII and Latin-1 agree here). */
  function Text(bs: seq<byte>): string
  {
    seq(|bs|, i requires 0 <= i < |bs| => bs[i] as char)
  }

  /** Every character is a 7-bit ASCII character. */
  predicate IsAscii(s: string)
  {
    forall i :: 0 <= i < |s| ==> s[i] as int < 0x80
  }

  /** The bytes of an ASCII string, one byte per character. */
  function AsciiBytes(s: string): (bs: seq<byte>)
    requires IsAscii(s)
    ensures Text(bs) == s
  {
    seq(|s|, i requires 0 <= i < |s| => s[i] as int)
  }
}
