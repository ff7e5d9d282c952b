/** `TGAColor`: four colour bytes in B, G, R, A order plus the number of them
    in use. The float intensity scaling `operator*` is not modelled. */
module TgaColor {
  import opened Bytes

  /** The fixed four-byte `bgra` array. */
  type Bgra = s: seq<byte> | |s| == 4 witness [0, 0, 0, 0]

  datatype Color = Color(bgra: Bgra, bytespp: byte)

  /** `TGAColor()`: every byte zero, one byte per pixel. */
  function Default(): (c: Color)
    ensures c.bytespp == 1
    ensures forall k :: 0 <= k < 4 ==> c.bgra[k] == 0
  {
    Color([0, 0, 0, 0], 1)
  }

  /** `TGAColor(R, G, B, A)`: stored blue first; callers that give no alpha pass 255. */
  function Rgba(red: byte, green: byte, blue: byte, alpha: byte := 255): (c: Color)
    ensures c.bytespp == 4
    ensures c.bgra[0] == blue && c.bgra[1] == green && c.bgra[2] == red && c.bgra[3] == alpha
  {
    Color([blue, green, red, alpha], 4)
  }

  /** `TGAColor(v)`: a grey level in byte 0, the other bytes zero. */
  function Gray(v: byte): (c: Color)
    ensures c.bytespp == 1
    ensures c.bgra[0] == v && c.bgra[1] == 0 && c.bgra[2] == 0 && c.bgra[3] == 0
  {
    Color([v, 0, 0, 0], 1)
  }

  /** `TGAColor(p, bpp)`: the first `bpp` bytes of `p`, zero-filled to four. */
  function FromBytes(p: seq<byte>, bpp: nat): (c: Color)
    requires bpp <= 4 && bpp <= |p|
    ensures c.bytespp == bpp
    ensures c.bgra[..bpp] == p[..bpp]
    ensures forall k :: bpp <= k < 4 ==> c.bgra[k] == 0
  {
    Color(p[..bpp] + Zeros(4 - bpp), bpp)
  }

  /** The bytes a `memcpy(dst, c.bgra, bpp)` copies out of a colour. */
  function Prefix(c: Color, bpp: nat): (r: seq<byte>)
    requires bpp <= 4
    ensures |r| == bpp
    ensures forall k :: 0 <= k < bpp ==> r[k] == c.bgra[k]
  {
    c.bgra[..bpp]
  }

  /** Reading back the bytes a colour was built from gives the same colour. */
  lemma FromPrefixRoundTrip(c: Color)
    requires c.bytespp <= 4
    requires forall k :: c.bytespp <= k < 4 ==> c.bgra[k] == 0
    ensures FromBytes(Prefix(c, c.bytespp), c.bytespp) == c
  {
    var r := FromBytes(Prefix(c, c.bytespp), c.bytespp);
    assert r.bgra == c.bgra;
  }
}
