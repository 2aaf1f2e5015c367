/** Types shared by every module: bytes, the fixed-width integers the server uses, and optional results. */
module Prelude {

  datatype Option<+T> = None | Some(value: T)

  type byte = b: int | 0 <= b < 256
  type Bytes = seq<byte>

  const INT64_MAX: int := 0x7FFF_FFFF_FFFF_FFFF
  const INT64_MIN: int := -0x8000_0000_0000_0000
  const SIZE_LIMIT: int := 0x1_0000_0000_0000_0000

  type int64 = x: int | INT64_MIN <= x <= INT64_MAX
  type uint64 = x: int | 0 <= x < SIZE_LIMIT

  /** The bytes of an ASCII text; any other character becomes a question mark. */
  function Ascii(text: string): (s: Bytes)
    ensures |s| == |text|
    ensures forall i :: 0 <= i < |text| && text[i] as int < 128 ==> s[i] == text[i] as int
  {
    seq(|text|, i requires 0 <= i < |text| => if text[i] as int < 128 then text[i] as int else 63)
  }
}
