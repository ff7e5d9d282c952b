/** Bytes, optional values and the little-endian / signed views of the raw
    header fields that the TGA reader and writer use. */
module Bytes {

  /** An unsigned 8-bit value, as `unsigned char` in the renderer. */
  type byte = b: int | 0 <= b < 256

  /** A 16-bit field as stored on disk (its raw bit pattern, unsigned). */
  type u16 = v: int | 0 <= v < 0x1_0000

  datatype Option<+T> = None | Some(value: T)

  /** The value a C++ `short` holds for the bit pattern `v`. */
  function AsShort(v: u16): (r: int)
    ensures -0x8000 <= r < 0x8000
    ensures r % 0x1_0000 == v
  {
    if v < 0x8000 then v else v - 0x1_0000
  }

  /** The value a (signed) C++ `char` holds for the bit pattern `b`. */
  function AsChar(b: byte): (r: int)
    ensures -0x80 <= r < 0x80
    ensures r % 0x100 == b
  {
    if b < 0x80 then b else b - 0x100
  }

  /** Conversion of an `int` to a 16-bit field: the low 16 bits are kept. */
  function Truncate16(x: int): (r: u16)
    ensures 0 <= x < 0x1_0000 ==> r == x
  {
    x % 0x1_0000
  }

  /** Conversion of an `int` to an 8-bit field: the low 8 bits are kept. */
  function Truncate8(x: int): (r: byte)
    ensures 0 <= x < 0x100 ==> r == x
  {
    x % 0x100
  }

  /** Little-endian encoding of a 16-bit field. */
  function Le16(v: u16): (r: seq<byte>)
    ensures |r| == 2
  {
    [v % 0x100, v / 0x100]
  }

  function ReadLe16(lo: byte, hi: byte): u16
  {
    lo + 0x100 * hi
  }

  lemma Le16RoundTrip(v: u16)
    ensures ReadLe16(Le16(v)[0], Le16(v)[1]) == v
  {
  }

  lemma ReadLe16RoundTrip(lo: byte, hi: byte)
    ensures Le16(ReadLe16(lo, hi)) == [lo, hi]
  {
  }

  /** `n` copies of the byte string `p`, one after the other. */
  function Repeat(p: seq<byte>, n: nat): (r: seq<byte>)
    ensures |r| == n * |p|
  {
    if n == 0 then [] else p + Repeat(p, n - 1)
  }

  /** `d` with the elements from offset `i` on replaced by `p`, as a
      `memcpy(d + i, p, |p|)` leaves it. */
  function Splice<T>(d: seq<T>, i: nat, p: seq<T>): (r: seq<T>)
    requires i + |p| <= |d|
    ensures |r| == |d|
    ensures forall k :: 0 <= k < |d| ==> r[k] == if i <= k < i + |p| then p[k - i] else d[k]
  {
    d[..i] + p + d[i + |p|..]
  }

  /** `n` zero bytes. */
  function Zeros(n: nat): (r: seq<byte>)
    ensures |r| == n
    ensures forall k :: 0 <= k < n ==> r[k] == 0
  {
    seq(n, _ => 0)
  }

  /** ASCII codes of a text made of characters below 128. */
  function Ascii(t: string): (r: seq<byte>)
    requires forall k :: 0 <= k < |t| ==> t[k] as int < 128
    ensures |r| == |t|
    ensures forall k :: 0 <= k < |t| ==> r[k] == t[k] as int
  {
    seq(|t|, k requires 0 <= k < |t| => t[k] as int)
  }
}
