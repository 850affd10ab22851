/** Shared value types: optional values, results with an error, and bytes. */
module Basics {

  datatype Option<+T> = None | Some(value: T)

  /** The outcome of a step that can raise: `Err` carries the exception kind. */
  datatype Result<+T, +E> = Ok(value: T) | Err(error: E)

  type byte = b: int | 0 <= b < 256

  type Bytes = seq<byte>

  /** The output of HMAC-SHA1 (section 2 of RFC 2104 with a 20-byte hash). */
  type Digest20 = d: Bytes | |d| == 20 witness seq(20, i => 0)

  /** The output of HMAC-SHA256. */
  type Digest32 = d: Bytes | |d| == 32 witness seq(32, i => 0)

  /** True when every character of `s` is 7-bit ASCII. */
  predicate IsAscii(s: string) {
    forall i :: 0 <= i < |s| ==> s[i] as int < 128
  }

  /** Python's `str.encode()` restricted to ASCII text, where UTF-8 is the identity on code points. */
  function AsciiBytes(s: string): (r: Bytes)
    requires IsAscii(s)
    ensures |r| == |s|
    ensures forall i :: 0 <= i < |s| ==> r[i] == s[i] as int
  {
    seq(|s|, i requires 0 <= i < |s| => s[i] as int as byte)
  }
}
