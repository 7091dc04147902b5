/** Bytes as the C sources see them, and the few sequence facts the other modules share. */
module Bytes {
  datatype Option<+T> = None | Some(value: T)

  /** An unsigned char. */
  type byte = x: int | 0 <= x < 256

  /** The value of a plain char on a machine where char is signed. */
  function Signed(b: byte): (c: int)
  {
    if b < 128 then b else b - 256
  }

  predicate Digit(b: byte) { 48 <= b <= 57 }

  predicate HexDigit(b: byte) { Digit(b) || 65 <= b <= 70 || 97 <= b <= 102 }

  predicate Alpha(b: byte) { 65 <= b <= 90 || 97 <= b <= 122 }

  function HexValue(b: byte): (v: int)
    requires HexDigit(b)
    ensures 0 <= v < 16
  {
    if Digit(b) then b - 48 else if 97 <= b then b - 87 else b - 55
  }

  /** The bytes of a text written in this document. */
  function Chars(text: string): seq<byte>
    requires forall i :: 0 <= i < |text| ==> text[i] < '\U{80}'
  {
    seq(|text|, i requires 0 <= i < |text| => text[i] as int)
  }
}
