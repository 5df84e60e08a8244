/** Bytes, C strings and the small wrappers the other modules share. */
module Bytes {

  type byte = b: int | 0 <= b < 0x100

  type Text = seq<byte>

  /** A NUL-terminated C string, without its terminator. */
  type CString = s: Text | 0 !in s

  datatype Option<+T> = None | Some(value: T)

  /** The value of a byte once it has been stored in a (signed) `char` and widened to `int`. */
  function SignedChar(b: byte): (c: int)
    ensures -0x80 <= c < 0x80
  {
    if b < 0x80 then b else b - 0x100
  }

  /** The byte that is stored when an `int` is assigned to a `char`. */
  function ToByte(c: int): byte {
    c % 0x100
  }

  /** Widening a `char` and storing it again gives the same byte. */
  lemma CharIsByte(b: byte)
    ensures ToByte(SignedChar(b)) == b
  {
  }

  const SIZE_MAX: nat := 0xFFFF_FFFF_FFFF_FFFF
  const INT_MAX: nat := 0x7FFF_FFFF
}
