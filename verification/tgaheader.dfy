/** The packed 18-byte `TGA_Header` and the `TGAImage::Format` values. */
module TgaHeader {
  import opened Bytes

  /** Size of the packed header: no padding between the fields. */
  const HeaderSize: nat := 18

  /** `TGAImage::Format`: bytes per pixel of the three supported layouts. */
  datatype Format = Grayscale | Rgb | Rgba {
    function BytesPerPixel(): (n: nat)
      ensures n in {1, 3, 4}
    {
      match this
      case Grayscale => 1
      case Rgb => 3
      case Rgba => 4
    }
  }

  const GRAYSCALE: nat := Grayscale.BytesPerPixel()
  const RGB: nat := Rgb.BytesPerPixel()
  const RGBA: nat := Rgba.BytesPerPixel()

  lemma FormatValues()
    ensures GRAYSCALE == 1 && RGB == 3 && RGBA == 4
  {
  }

  /** The header fields as raw bit patterns; `char` fields are one byte,
      `short` fields two bytes little-endian. */
  datatype Header = Header(
    idLength: byte,
    colorMapType: byte,
    dataTypeCode: byte,
    colorMapOrigin: u16,
    colorMapLength: u16,
    colorMapDepth: byte,
    xOrigin: u16,
    yOrigin: u16,
    width: u16,
    height: u16,
    bitsPerPixel: byte,
    imageDescriptor: byte)

  /** The header with every byte zero, as `memset` leaves it. */
  const Zero := Header(0, 0, 0, 0, 0, 0, 0, 0, 0, 0, 0, 0)

  /** The on-disk bytes of a header, fields in declaration order. */
  function Encode(h: Header): (r: seq<byte>)
    ensures |r| == HeaderSize
    ensures r[0] == h.idLength && r[1] == h.colorMapType && r[2] == h.dataTypeCode
    ensures r[3..5] == Le16(h.colorMapOrigin) && r[5..7] == Le16(h.colorMapLength)
    ensures r[7] == h.colorMapDepth
    ensures r[8..10] == Le16(h.xOrigin) && r[10..12] == Le16(h.yOrigin)
    ensures ReadLe16(r[12], r[13]) == h.width && ReadLe16(r[14], r[15]) == h.height
    ensures r[16] == h.bitsPerPixel && r[17] == h.imageDescriptor
  {
    [h.idLength, h.colorMapType, h.dataTypeCode]
    + Le16(h.colorMapOrigin) + Le16(h.colorMapLength)
    + [h.colorMapDepth]
    + Le16(h.xOrigin) + Le16(h.yOrigin)
    + Le16(h.width) + Le16(h.height)
    + [h.bitsPerPixel, h.imageDescriptor]
  }

  /** The header read from the first 18 bytes of a stream. */
  function Decode(s: seq<byte>): (h: Header)
    requires |s| >= HeaderSize
    ensures h.idLength == s[0] && h.colorMapType == s[1] && h.dataTypeCode == s[2]
    ensures Le16(h.colorMapOrigin) == s[3..5] && Le16(h.colorMapLength) == s[5..7]
    ensures h.colorMapDepth == s[7]
    ensures Le16(h.xOrigin) == s[8..10] && Le16(h.yOrigin) == s[10..12]
    ensures Le16(h.width) == s[12..14] && Le16(h.height) == s[14..16]
    ensures h.bitsPerPixel == s[16] && h.imageDescriptor == s[17]
  {
    ReadLe16RoundTrip(s[3], s[4]);
    ReadLe16RoundTrip(s[5], s[6]);
    ReadLe16RoundTrip(s[8], s[9]);
    ReadLe16RoundTrip(s[10], s[11]);
    ReadLe16RoundTrip(s[12], s[13]);
    ReadLe16RoundTrip(s[14], s[15]);
    Header(s[0], s[1], s[2],
           ReadLe16(s[3], s[4]), ReadLe16(s[5], s[6]),
           s[7],
           ReadLe16(s[8], s[9]), ReadLe16(s[10], s[11]),
           ReadLe16(s[12], s[13]), ReadLe16(s[14], s[15]),
           s[16], s[17])
  }

  lemma DecodeEncode(h: Header, rest: seq<byte>)
    ensures Decode(Encode(h) + rest) == h
  {
    var s := Encode(h) + rest;
    Le16RoundTrip(h.colorMapOrigin);
    Le16RoundTrip(h.colorMapLength);
    Le16RoundTrip(h.xOrigin);
    Le16RoundTrip(h.yOrigin);
  }

  lemma EncodeDecode(s: seq<byte>)
    requires |s| >= HeaderSize
    ensures Encode(Decode(s)) == s[..HeaderSize]
  {
    var h := Decode(s);
    ReadLe16RoundTrip(s[3], s[4]);
    ReadLe16RoundTrip(s[5], s[6]);
    ReadLe16RoundTrip(s[8], s[9]);
    ReadLe16RoundTrip(s[10], s[11]);
    ReadLe16RoundTrip(s[12], s[13]);
    ReadLe16RoundTrip(s[14], s[15]);
  }

  /** The image width the reader sees: the field read as a signed `short`. */
  function Width(h: Header): int { AsShort(h.width) }

  /** The image height the reader sees: the field read as a signed `short`. */
  function Height(h: Header): int { AsShort(h.height) }

  /** Bytes per pixel the reader derives: the signed `char` depth shifted right by 3. */
  function BytesPerPixel(h: Header): int { AsChar(h.bitsPerPixel) / 8 }

  /** Top-left origin flag (bit 5 of the descriptor). */
  predicate TopLeft(h: Header) { (h.imageDescriptor / 0x20) % 2 == 1 }

  /** Right-to-left flag (bit 4 of the descriptor). */
  predicate RightToLeft(h: Header) { (h.imageDescriptor / 0x10) % 2 == 1 }

  /** The header the writer emits: everything zero except depth, size, type
      and the top-left descriptor. */
  function ForImage(width: int, height: int, bytespp: int, rle: bool): (h: Header)
    ensures h.idLength == 0 && h.colorMapType == 0 && h.colorMapOrigin == 0
    ensures h.colorMapLength == 0 && h.colorMapDepth == 0
    ensures h.xOrigin == 0 && h.yOrigin == 0
    ensures bytespp in {1, 3, 4} ==> BytesPerPixel(h) == bytespp
    ensures bytespp in {1, 3, 4} ==> h.bitsPerPixel == bytespp * 8
    ensures 0 <= width < 0x8000 ==> Width(h) == width
    ensures 0 <= height < 0x8000 ==> Height(h) == height
    ensures h.dataTypeCode == (if bytespp == 1 then (if rle then 11 else 3) else (if rle then 10 else 2))
    ensures h.imageDescriptor == 0x20 && TopLeft(h) && !RightToLeft(h)
  {
    Zero.(bitsPerPixel := Truncate8(bytespp * 8),
          width := Truncate16(width),
          height := Truncate16(height),
          dataTypeCode := if bytespp == GRAYSCALE then (if rle then 11 else 3) else (if rle then 10 else 2),
          imageDescriptor := 0x20)
  }
}
