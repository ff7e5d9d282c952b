/** `read_tga_file` and `write_tga_file` on the bytes of the file: the
    stream is the whole file content, and a successful write is the byte
    sequence the writer puts out. */
module TgaFile {
  import opened Bytes
  import opened Arith
  import opened TgaHeader
  import opened TgaError
  import opened TgaRle
  import opened TgaImage

  /** The two four-byte area references the writer puts after the pixel data. */
  const AreaRefs: seq<byte> := Zeros(8)

  /** The 18-byte footer: the text `TRUEVISION-XFILE.` and a terminating zero. */
  const Signature: seq<byte> := Ascii("TRUEVISION-XFILE.") + [0]

  /** Everything the writer puts after the pixel data. */
  function Trailer(): (t: seq<byte>)
    ensures |t| == 26
    ensures forall k | 0 <= k < 8 :: t[k] == 0
    ensures t[8..] == [0x54, 0x52, 0x55, 0x45, 0x56, 0x49, 0x53, 0x49, 0x4F,
                       0x4E, 0x2D, 0x58, 0x46, 0x49, 0x4C, 0x45, 0x2E, 0x00]
  {
    AreaRefs + Signature
  }

  /** The header's size and depth are the ones the reader accepts. */
  predicate GoodGeometry(h: Header)
  {
    Width(h) > 0 && Height(h) > 0 && BytesPerPixel(h) in {1, 3, 4}
  }

  /** The pixel buffer from the bytes after the header, according to the
      data type code: uncompressed (2, 3) or run-length encoded (10, 11). */
  function ReadData(h: Header, body: seq<byte>): (r: Result<seq<byte>>)
    requires GoodGeometry(h)
    ensures r.Ok? ==> |r.value| == Width(h) * Height(h) * BytesPerPixel(h)
    ensures h.dataTypeCode !in {2, 3, 10, 11} <==> r == Err(UnknownDataType(h.dataTypeCode))
    ensures h.dataTypeCode in {2, 3} ==>
              (r.Ok? <==> |body| >= Width(h) * Height(h) * BytesPerPixel(h))
    ensures h.dataTypeCode in {2, 3} && r.Ok? ==> r.value == body[.. |r.value|]
    ensures r.Err? ==> !r.error.TruncatedHeader? && !r.error.BadGeometry?
    ensures h.dataTypeCode in {10, 11} ==>
              var unpacked := LoadRle(body, BytesPerPixel(h), Width(h) * Height(h));
              && (r.Ok? <==> unpacked.Ok?)
              && (r.Ok? ==> r.value == unpacked.value.data)
              && (r.Err? ==> r.error == unpacked.error)
  {
    var n := Width(h) * Height(h) * BytesPerPixel(h);
    if h.dataTypeCode == 3 || h.dataTypeCode == 2 then
      if |body| < n then Err(TruncatedData) else Ok(body[..n])
    else if h.dataTypeCode == 10 || h.dataTypeCode == 11 then
      match LoadRle(body, BytesPerPixel(h), Width(h) * Height(h))
      case Err(e) => Err(e)
      case Ok(dec) => Ok(dec.data)
    else Err(UnknownDataType(h.dataTypeCode))
  }

  /** The image as the reader orients it: rows flipped unless the origin is
      top-left, columns flipped when the pixels run right to left. */
  function Orient(h: Header, img: Image): (r: Image)
    requires Valid(img) && img.data.Some?
    ensures Valid(r) && r.data.Some?
    ensures r.width == img.width && r.height == img.height && r.bytespp == img.bytespp
    ensures TopLeft(h) && !RightToLeft(h) ==> r == img
  {
    var v := Rows(h, img);
    if RightToLeft(h) then FlipHorizontally(v).image else v
  }

  /** `read_tga_file` on the file content `s`. */
  function ReadTga(s: seq<byte>): (r: Result<Image>)
    ensures |s| < HeaderSize <==> r == Err(TruncatedHeader)
    ensures |s| >= HeaderSize && !GoodGeometry(Decode(s)) ==> r == Err(BadGeometry)
    ensures |s| >= HeaderSize && GoodGeometry(Decode(s))
            && Decode(s).dataTypeCode !in {2, 3, 10, 11}
            ==> r == Err(UnknownDataType(Decode(s).dataTypeCode))
    ensures |s| >= HeaderSize && GoodGeometry(Decode(s)) ==>
              var d := ReadData(Decode(s), s[HeaderSize..]);
              && (r.Ok? <==> d.Ok?)
              && (r.Err? ==> r.error == d.error)
    ensures r.Ok? ==>
              && |s| >= HeaderSize && GoodGeometry(Decode(s))
              && Valid(r.value) && r.value.data.Some?
              && r.value.width == Width(Decode(s)) && r.value.height == Height(Decode(s))
              && r.value.bytespp == BytesPerPixel(Decode(s))
  {
    if |s| < HeaderSize then Err(TruncatedHeader)
    else
      var h := Decode(s);
      if !GoodGeometry(h) then Err(BadGeometry)
      else
        match ReadData(h, s[HeaderSize..])
        case Err(e) => Err(e)
        case Ok(d) => Ok(Orient(h, Image(Width(h), Height(h), BytesPerPixel(h), Some(d))))
  }

  /** The pixel data as the writer puts it out, packed or not. */
  function Payload(img: Image, rle: bool): (p: seq<byte>)
    requires Valid(img)
    ensures !rle ==> p == (if img.data.Some? then img.data.value else [])
  {
    var d := if img.data.Some? then img.data.value else [];
    if rle then UnloadRle(d, img.bytespp, img.width * img.height) else d
  }

  /** `write_tga_file(…, rle)`: the header, the pixel data, the two area
      references and the footer. */
  function WriteTga(img: Image, rle: bool := true): (r: seq<byte>)
    requires Valid(img)
    ensures |r| == HeaderSize + |Payload(img, rle)| + 26
    ensures r[..HeaderSize] == Encode(ForImage(img.width, img.height, img.bytespp, rle))
  {
    var e, p, t := Encode(ForImage(img.width, img.height, img.bytespp, rle)), Payload(img, rle), Trailer();
    assert (e + p + t)[..|e|] == e;
    e + p + t
  }

  /** The sizes a file can carry: a 16-bit signed field holds 1 to 32767. */
  predicate Writable(img: Image)
  {
    && 1 <= img.width < 0x8000 && 1 <= img.height < 0x8000
    && img.bytespp in {1, 3, 4} && img.data.Some?
  }

  /** Reading a written file gives back the image, packed or not. */
  lemma WriteRead(img: Image, rle: bool)
    requires Valid(img) && Writable(img)
    ensures ReadTga(WriteTga(img, rle)) == Ok(img)
  {
    var h := ForImage(img.width, img.height, img.bytespp, rle);
    var s := WriteTga(img, rle);
    WrittenHeader(img, rle);
    WrittenData(img, rle);
    assert ReadTga(s) == Ok(Orient(h, Image(img.width, img.height, img.bytespp, Some(img.data.value))));
  }

  /** The header read back from a written file is the one the writer made. */
  lemma WrittenHeader(img: Image, rle: bool)
    requires Valid(img) && Writable(img)
    ensures |WriteTga(img, rle)| >= HeaderSize
    ensures Decode(WriteTga(img, rle)) == ForImage(img.width, img.height, img.bytespp, rle)
    ensures GoodGeometry(ForImage(img.width, img.height, img.bytespp, rle))
  {
    var h := ForImage(img.width, img.height, img.bytespp, rle);
    DecodeEncode(h, Payload(img, rle) + Trailer());
    assert WriteTga(img, rle) == Encode(h) + (Payload(img, rle) + Trailer());
  }

  /** The pixel data read back from a written file is the image's buffer. */
  lemma WrittenData(img: Image, rle: bool)
    requires Valid(img) && Writable(img)
    ensures GoodGeometry(ForImage(img.width, img.height, img.bytespp, rle))
    ensures |WriteTga(img, rle)| >= HeaderSize
    ensures ReadData(ForImage(img.width, img.height, img.bytespp, rle), WriteTga(img, rle)[HeaderSize..])
              == Ok(img.data.value)
  {
    var h := ForImage(img.width, img.height, img.bytespp, rle);
    WrittenBody(img, rle);
    if rle {
      ReadPacked(h, img.data.value, Trailer());
    } else {
      ReadRaw(h, img.data.value, Trailer());
    }
  }

  /** After the header a written file holds the pixel data and the trailer. */
  lemma WrittenBody(img: Image, rle: bool)
    requires Valid(img)
    ensures |WriteTga(img, rle)| >= HeaderSize
    ensures WriteTga(img, rle)[HeaderSize..] == Payload(img, rle) + Trailer()
  {
    var e := Encode(ForImage(img.width, img.height, img.bytespp, rle));
    assert WriteTga(img, rle) == e + (Payload(img, rle) + Trailer());
  }

  /** Run-length packed pixel data followed by anything reads back as the pixels. */
  lemma ReadPacked(h: Header, d: seq<byte>, tail: seq<byte>)
    requires GoodGeometry(h) && h.dataTypeCode in {10, 11}
    requires |d| == Width(h) * Height(h) * BytesPerPixel(h)
    ensures ReadData(h, UnloadRle(d, BytesPerPixel(h), Width(h) * Height(h)) + tail) == Ok(d)
  {
    var n := Width(h) * Height(h);
    MulLeft(1, Width(h), Height(h));
    RoundTrip(d, BytesPerPixel(h), n, tail);
  }

  /** Uncompressed pixel data followed by anything reads back as the pixels. */
  lemma ReadRaw(h: Header, d: seq<byte>, tail: seq<byte>)
    requires GoodGeometry(h) && h.dataTypeCode in {2, 3}
    requires |d| == Width(h) * Height(h) * BytesPerPixel(h)
    ensures ReadData(h, d + tail) == Ok(d)
  {
    assert (d + tail)[..|d|] == d;
  }

  /** Pixel by pixel, the reader's orientation: rows are mirrored unless
      the origin is top-left, columns when the pixels run right to left. */
  lemma OrientPixels(h: Header, img: Image, x: int, y: int)
    requires Valid(img) && img.data.Some? && InRange(img, x, y)
    ensures Get(Orient(h, img), x, y)
              == Get(img, if RightToLeft(h) then img.width - 1 - x else x,
                          if TopLeft(h) then y else img.height - 1 - y)
  {
    var v := Rows(h, img);
    var x' := if RightToLeft(h) then img.width - 1 - x else x;
    assert Orient(h, img) == (if RightToLeft(h) then FlipHorizontally(v).image else v);
    if RightToLeft(h) {
      FlipHorizontallySwapsColumns(v, x, y);
    }
    RowsPixel(h, img, x', y);
  }

  /** The image after the reader's first step: rows flipped unless the origin is top-left. */
  function Rows(h: Header, img: Image): (v: Image)
    requires Valid(img) && img.data.Some?
    ensures Valid(v) && v.data.Some?
    ensures v.width == img.width && v.height == img.height && v.bytespp == img.bytespp
  {
    if TopLeft(h) then img else FlipVertically(img).image
  }

  lemma RowsPixel(h: Header, img: Image, x: int, y: int)
    requires Valid(img) && img.data.Some? && InRange(img, x, y)
    ensures Get(Rows(h, img), x, y) == Get(img, x, if TopLeft(h) then y else img.height - 1 - y)
  {
    if !TopLeft(h) {
      FlipVerticallySwapsRows(img, x, y);
    }
  }

  /** Pixel (x, y) of an image read from a file is the stored pixel the
      header's descriptor bits place there: the stored rows run bottom-up
      unless the origin is top-left, and right to left when that bit is set. */
  lemma ReadOriented(s: seq<byte>, x: int, y: int)
    requires ReadTga(s).Ok?
    requires 0 <= x < Width(Decode(s)) && 0 <= y < Height(Decode(s))
    ensures var h := Decode(s);
      var stored := Image(Width(h), Height(h), BytesPerPixel(h), Some(ReadData(h, s[HeaderSize..]).value));
      Get(ReadTga(s).value, x, y)
        == Get(stored, if RightToLeft(h) then Width(h) - 1 - x else x,
                       if TopLeft(h) then y else Height(h) - 1 - y)
  {
    var h := Decode(s);
    var stored := Image(Width(h), Height(h), BytesPerPixel(h), Some(ReadData(h, s[HeaderSize..]).value));
    assert ReadTga(s).value == Orient(h, stored);
    OrientPixels(h, stored, x, y);
  }
}
