/** Byte-level building blocks shared by the writer model: the byte type,
    the NUL terminator, clamping and an in-place overwrite of a byte range. */
module Bytes {

  /** An unsigned 8-bit value, as stored in the response chunk buffer. */
  type byte = b: int | 0 <= b < 256

  /** The C string terminator. */
  const NUL: byte := 0

  function Min(a: nat, b: nat): (r: nat)
    ensures r <= a && r <= b
    ensures r == a || r == b
  {
    if a <= b then a else b
  }

  /** The first `n` elements of `s`, or all of `s` when it is shorter. */
  function Take<T>(s: seq<T>, n: nat): (r: seq<T>)
    ensures |r| == Min(|s|, n)
    ensures r == s[..|r|]
  {
    if |s| <= n then s else s[..n]
  }

  /** `s` with the bytes starting at index `at` replaced by `piece` (a memcpy
      into a buffer that is large enough); every other byte is kept. */
  function Overwrite(s: seq<byte>, at: nat, piece: seq<byte>): (r: seq<byte>)
    requires at + |piece| <= |s|
    ensures |r| == |s|
    ensures forall i :: 0 <= i < |s| ==> r[i] == (if at <= i < at + |piece| then piece[i - at] else s[i])
  {
    s[..at] + piece + s[at + |piece|..]
  }
}
