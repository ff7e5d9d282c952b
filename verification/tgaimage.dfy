/** `TGAImage`: a raster of `width * height` pixels of `bytespp` bytes each,
    stored row by row, and the operations on it that do not touch a stream. */
module TgaImage {
  import opened Bytes
  import opened Arith
  import opened TgaColor
  import opened TgaHeader

  /** `data == None` is the NULL buffer of a default-constructed image. */
  datatype Image = Image(width: int, height: int, bytespp: int, data: Option<seq<byte>>)

  /** The buffer holds exactly `width * height * bytespp` bytes and the depth
      is one of the `Format` values; only a 0 x 0 image of depth 0 (the
      default image, or a copy of it) is exempt from the depth rule, and
      only the default image has no buffer. */
  ghost predicate Valid(img: Image)
  {
    && img.width >= 0 && img.height >= 0
    && (img.bytespp in {1, 3, 4} || (img.width == 0 && img.height == 0 && img.bytespp == 0))
    && match img.data
       case None => img.width == 0 && img.height == 0 && img.bytespp == 0
       case Some(d) => |d| == img.width * img.height * img.bytespp
  }

  /** The result of an operation that reports success and may change the image. */
  datatype Updated = Updated(ok: bool, image: Image)

  /** `TGAImage()`: no buffer, zero size and depth. */
  function Empty(): (img: Image)
    ensures Valid(img) && img.data.None?
    ensures img.width == 0 && img.height == 0 && img.bytespp == 0
  {
    Image(0, 0, 0, None)
  }

  /** `TGAImage(w, h, bpp)`: a zero-filled buffer of the requested size. */
  function New(w: int, h: int, format: Format): (img: Image)
    requires w >= 0 && h >= 0
    ensures Valid(img) && img.data.Some?
    ensures img.width == w && img.height == h && img.bytespp == format.BytesPerPixel()
    ensures forall k :: 0 <= k < |img.data.value| ==> img.data.value[k] == 0
  {
    var bpp := format.BytesPerPixel();
    Image(w, h, bpp, Some(Zeros(w * h * bpp)))
  }

  /** The copy constructor (and `operator=`): a deep copy of size and bytes.
      Copying the NULL buffer allocates an empty one. */
  function Copy(img: Image): (r: Image)
    requires Valid(img)
    ensures Valid(r) && r.data.Some?
    ensures r.width == img.width && r.height == img.height && r.bytespp == img.bytespp
    ensures img.data.Some? ==> r.data == img.data
    ensures img.data.None? ==> r.data == Some([])
  {
    Image(img.width, img.height, img.bytespp, Some(if img.data.Some? then img.data.value else []))
  }

  /** `clear()`: every byte of the buffer becomes zero, the size stays. */
  function Clear(img: Image): (r: Image)
    requires Valid(img)
    ensures Valid(r)
    ensures r.width == img.width && r.height == img.height && r.bytespp == img.bytespp
    ensures r.data.Some? <==> img.data.Some?
    ensures r.data.Some? ==> forall k :: 0 <= k < |r.data.value| ==> r.data.value[k] == 0
  {
    match img.data
    case None => img
    case Some(d) => img.(data := Some(Zeros(|d|)))
  }

  predicate InRange(img: Image, x: int, y: int)
  {
    0 <= x < img.width && 0 <= y < img.height
  }

  /** `index(x, y)`: the byte offset of pixel (x, y). */
  function Index(img: Image, x: int, y: int): (k: int)
    ensures Valid(img) && InRange(img, x, y) ==>
              img.data.Some? && 0 <= k && k + img.bytespp <= |img.data.value|
  {
    var w, h := img.width, img.height;
    assert Valid(img) && InRange(img, x, y) ==>
             img.data.Some? && 0 <= (x + y * w) * img.bytespp
             && (x + y * w) * img.bytespp + img.bytespp <= |img.data.value| by {
      if Valid(img) && InRange(img, x, y) {
        RowMajorBelow(x, y, w, h);
        MulLeft(0, x + y * w, img.bytespp);
        PixelFits(x + y * w, w * h, img.bytespp);
      }
    }
    (x + y * w) * img.bytespp
  }

  /** An in-range pixel's bytes lie inside the buffer. */
  lemma PixelInBuffer(img: Image, x: int, y: int)
    requires Valid(img) && InRange(img, x, y)
    ensures img.data.Some?
    ensures 0 <= Index(img, x, y) && Index(img, x, y) + img.bytespp <= |img.data.value|
  {
    var w, h := img.width, img.height;
    RowMajorBelow(x, y, w, h);
    MulLeft(0, x + y * w, img.bytespp);
    PixelFits(x + y * w, w * h, img.bytespp);
  }

  /** The bytes of pixel (x, y). */
  function PixelBytes(img: Image, x: int, y: int): (p: seq<byte>)
    requires Valid(img) && InRange(img, x, y)
    ensures |p| == img.bytespp
  {
    PixelInBuffer(img, x, y);
    img.data.value[Index(img, x, y) .. Index(img, x, y) + img.bytespp]
  }

  /** `get(x, y)`: the pixel as a colour of the image's depth, or the
      default colour when there is no buffer or (x, y) is outside the image. */
  function Get(img: Image, x: int, y: int): (c: Color)
    requires Valid(img)
    ensures img.data.None? || !InRange(img, x, y) ==> c == Default()
    ensures InRange(img, x, y) ==>
              c.bytespp == img.bytespp && c.bgra[..img.bytespp] == PixelBytes(img, x, y)
              && forall k :: img.bytespp <= k < 4 ==> c.bgra[k] == 0
  {
    if img.data.None? || !InRange(img, x, y) then Default()
    else FromBytes(PixelBytes(img, x, y), img.bytespp)
  }

  /** `set(x, y, c)`: copies the first `bytespp` bytes of `c` over pixel
      (x, y) and touches no other byte; fails and changes nothing without a
      buffer or out of range. */
  function Set(img: Image, x: int, y: int, c: Color): (r: Updated)
    requires Valid(img)
    ensures Valid(r.image)
    ensures r.ok <==> img.data.Some? && InRange(img, x, y)
    ensures !r.ok ==> r.image == img
    ensures r.ok ==>
              && r.image.width == img.width && r.image.height == img.height
              && r.image.bytespp == img.bytespp && r.image.data.Some?
              && |r.image.data.value| == |img.data.value|
              && forall k :: 0 <= k < |img.data.value| ==>
                   r.image.data.value[k] ==
                     if Index(img, x, y) <= k < Index(img, x, y) + img.bytespp
                     then c.bgra[k - Index(img, x, y)] else img.data.value[k]
  {
    if img.data.None? || !InRange(img, x, y) then Updated(false, img)
    else
      PixelInBuffer(img, x, y);
      Updated(true, img.(data := Some(Splice(img.data.value, Index(img, x, y), Prefix(c, img.bytespp)))))
  }

  /** A fresh image reads back as the all-zero colour of its depth everywhere. */
  lemma GetNew(w: int, h: int, format: Format, x: int, y: int)
    requires 0 <= x < w && 0 <= y < h
    ensures Get(New(w, h, format), x, y) == Color([0, 0, 0, 0], format.BytesPerPixel())
  {
    PixelInBuffer(New(w, h, format), x, y);
  }

  /** After `clear()` every in-range pixel reads back as the all-zero colour. */
  lemma GetCleared(img: Image, x: int, y: int)
    requires Valid(img) && InRange(img, x, y)
    ensures Get(Clear(img), x, y) == Color([0, 0, 0, 0], img.bytespp)
  {
    PixelInBuffer(img, x, y);
  }

  /** A `get` after a `set` at the same place returns the colour written,
      cut to the image's depth. */
  lemma GetAfterSet(img: Image, x: int, y: int, c: Color)
    requires Valid(img) && InRange(img, x, y)
    ensures Get(Set(img, x, y, c).image, x, y) == FromBytes(Prefix(c, img.bytespp), img.bytespp)
  {
    var r := Set(img, x, y, c).image;
    PixelInBuffer(img, x, y);
    assert PixelBytes(r, x, y) == Prefix(c, img.bytespp);
  }

  /** A `set` leaves every other pixel as it was. */
  lemma GetOtherAfterSet(img: Image, x: int, y: int, c: Color, x': int, y': int)
    requires Valid(img)
    requires x != x' || y != y'
    ensures Get(Set(img, x, y, c).image, x', y') == Get(img, x', y')
  {
    var r := Set(img, x, y, c);
    if r.ok && InRange(img, x', y') {
      var w, bpp := img.width, img.bytespp;
      var d, d' := img.data.value, r.image.data.value;
      var i, j := Index(img, x, y), Index(img, x', y');
      PixelInBuffer(img, x', y');
      if x + y * w == x' + y' * w {
        RowMajorInjective(x, y, x', y', w);
      }
      forall u | 0 <= u < bpp
        ensures PixelBytes(r.image, x', y')[u] == PixelBytes(img, x', y')[u]
      {
        SpanOutside(x + y * w, x' + y' * w, bpp, u);
        assert !(i <= j + u < i + bpp);
        assert d'[j + u] == d[j + u];
      }
      assert PixelBytes(r.image, x', y') == PixelBytes(img, x', y');
    }
  }

  /** Writing back what `get` returned changes nothing. */
  lemma SetGetUnchanged(img: Image, x: int, y: int)
    requires Valid(img)
    ensures Set(img, x, y, Get(img, x, y)).image == img
  {
    var r := Set(img, x, y, Get(img, x, y));
    if r.ok {
      PixelInBuffer(img, x, y);
      var d, d' := img.data.value, r.image.data.value;
      forall k | 0 <= k < |d|
        ensures d'[k] == d[k]
      {
        if Index(img, x, y) <= k < Index(img, x, y) + img.bytespp {
          assert d[k] == PixelBytes(img, x, y)[k - Index(img, x, y)];
        }
      }
      assert d' == d;
    }
  }

  // ---------------------------------------------------------------------
  // Mirroring

  /** The source offset of byte `k` when the `h` rows of `rowLen` bytes are
      put in reverse order. */
  function RowMirror(k: int, rowLen: nat, h: nat): (r: int)
    requires 0 <= k < rowLen * h
    ensures 0 <= r < rowLen * h
  {
    QuotientBelow(k, h, rowLen);
    var q, c := k / rowLen, k % rowLen;
    RowMajorBelow(c, h - 1 - q, rowLen, h);
    c + (h - 1 - q) * rowLen
  }

  lemma RowMirrorAt(c: int, y: int, rowLen: nat, h: nat)
    requires 0 <= c < rowLen && 0 <= y < h
    ensures 0 <= c + y * rowLen < rowLen * h
    ensures RowMirror(c + y * rowLen, rowLen, h) == c + (h - 1 - y) * rowLen
  {
    RowMajorBelow(c, y, rowLen, h);
    DivMod(y, c, rowLen);
  }

  lemma RowMirrorInvolution(k: int, rowLen: nat, h: nat)
    requires 0 <= k < rowLen * h
    ensures RowMirror(RowMirror(k, rowLen, h), rowLen, h) == k
  {
    QuotientBelow(k, h, rowLen);
    var q, c := k / rowLen, k % rowLen;
    RowMirrorAt(c, h - 1 - q, rowLen, h);
  }

  /** The source offset of byte `k` when every row of `w` pixels of `bpp`
      bytes is reversed pixel by pixel. */
  function ColumnMirror(k: int, w: nat, h: nat, bpp: nat): (r: int)
    requires 0 <= k < w * h * bpp
    ensures 0 <= r < w * h * bpp
  {
    QuotientBelow(k, w * h, bpp);
    var p, t := k / bpp, k % bpp;
    QuotientBelow(p, h, w);
    var x, y := p % w, p / w;
    RowMajorBelow(w - 1 - x, y, w, h);
    PixelFits((w - 1 - x) + y * w, w * h, bpp);
    ((w - 1 - x) + y * w) * bpp + t
  }

  lemma ColumnMirrorAt(x: int, y: int, t: int, w: nat, h: nat, bpp: nat)
    requires 0 <= x < w && 0 <= y < h && 0 <= t < bpp
    ensures 0 <= (x + y * w) * bpp + t < w * h * bpp
    ensures ColumnMirror((x + y * w) * bpp + t, w, h, bpp) == ((w - 1 - x) + y * w) * bpp + t
  {
    var p := x + y * w;
    var k := p * bpp + t;
    RowMajorBelow(x, y, w, h);
    PixelFits(p, w * h, bpp);
    MulLeft(0, p, bpp);
    DivMod(p, t, bpp);
    assert k / bpp == p && k % bpp == t;
    DivMod(y, x, w);
    assert p / w == y && p % w == x;
    assert ColumnMirror(k, w, h, bpp) == ((w - 1 - x) + y * w) * bpp + t;
  }

  lemma ColumnMirrorInvolution(k: int, w: nat, h: nat, bpp: nat)
    requires 0 <= k < w * h * bpp
    ensures ColumnMirror(ColumnMirror(k, w, h, bpp), w, h, bpp) == k
  {
    var x, y, t := PixelOfByte(k, w, h, bpp);
    var x' := w - 1 - x;
    ColumnMirrorAt(x, y, t, w, h, bpp);
    var k' := ColumnMirror(k, w, h, bpp);
    assert k' == (x' + y * w) * bpp + t;
    ColumnMirrorAt(x', y, t, w, h, bpp);
    assert (w - 1 - x') + y * w == x + y * w;
  }

  /** Byte `k` of a `w` by `h` buffer is byte `t` of pixel (x, y). */
  lemma PixelOfByte(k: int, w: nat, h: nat, bpp: nat) returns (x: int, y: int, t: int)
    requires 0 <= k < w * h * bpp
    ensures 0 <= x < w && 0 <= y < h && 0 <= t < bpp
    ensures k == (x + y * w) * bpp + t
  {
    QuotientBelow(k, w * h, bpp);
    var p := k / bpp;
    t := k % bpp;
    QuotientBelow(p, h, w);
    x, y := p % w, p / w;
    assert p == x + y * w;
  }

  /** The buffer with its rows in reverse order. */
  function MirrorRows(d: seq<byte>, rowLen: nat, h: nat): (r: seq<byte>)
    requires |d| == rowLen * h
    ensures |r| == |d|
  {
    seq(|d|, k requires 0 <= k < |d| => d[RowMirror(k, rowLen, h)])
  }

  /** The buffer with every row reversed pixel by pixel. */
  function MirrorColumns(d: seq<byte>, w: nat, h: nat, bpp: nat): (r: seq<byte>)
    requires |d| == w * h * bpp
    ensures |r| == |d|
  {
    seq(|d|, k requires 0 <= k < |d| => d[ColumnMirror(k, w, h, bpp)])
  }

  /** `flip_vertically()`: the rows in reverse order. Fails and changes
      nothing when there is no buffer. */
  function FlipVertically(img: Image): (r: Updated)
    requires Valid(img)
    ensures Valid(r.image)
    ensures r.ok <==> img.data.Some?
    ensures !r.ok ==> r.image == img
    ensures r.image.width == img.width && r.image.height == img.height && r.image.bytespp == img.bytespp
    ensures r.image.data.Some? <==> img.data.Some?
  {
    match img.data
    case None => Updated(false, img)
    case Some(d) => Updated(true, img.(data := Some(MirrorRows(d, img.width * img.bytespp, img.height))))
  }

  /** `flip_horizontally()`: every row reversed. Fails and changes nothing
      when there is no buffer. */
  function FlipHorizontally(img: Image): (r: Updated)
    requires Valid(img)
    ensures Valid(r.image)
    ensures r.ok <==> img.data.Some?
    ensures !r.ok ==> r.image == img
    ensures r.image.width == img.width && r.image.height == img.height && r.image.bytespp == img.bytespp
    ensures r.image.data.Some? <==> img.data.Some?
  {
    match img.data
    case None => Updated(false, img)
    case Some(d) => Updated(true, img.(data := Some(MirrorColumns(d, img.width, img.height, img.bytespp))))
  }

  /** Byte `c` of row `y` in the row-mirrored buffer is byte `c` of row `h-1-y`. */
  lemma MirrorRowsByte(d: seq<byte>, rowLen: nat, h: nat, c: int, y: int)
    requires |d| == rowLen * h && 0 <= c < rowLen && 0 <= y < h
    ensures 0 <= c + y * rowLen < |d| && 0 <= c + (h - 1 - y) * rowLen < |d|
    ensures MirrorRows(d, rowLen, h)[c + y * rowLen] == d[c + (h - 1 - y) * rowLen]
  {
    RowMirrorAt(c, y, rowLen, h);
    RowMajorBelow(c, h - 1 - y, rowLen, h);
  }

  /** Byte `t` of pixel (x, y) in the row-mirrored buffer is byte `t` of
      pixel (x, h-1-y) in the original. */
  lemma MirrorRowsAt(d: seq<byte>, w: nat, h: nat, bpp: nat, x: int, y: int, t: int)
    requires |d| == w * h * bpp
    requires 0 <= x < w && 0 <= y < h && 0 <= t < bpp
    ensures 0 <= (x + y * w) * bpp + t < |d| && 0 <= (x + (h - 1 - y) * w) * bpp + t < |d|
    ensures MirrorRows(d, w * bpp, h)[(x + y * w) * bpp + t] == d[(x + (h - 1 - y) * w) * bpp + t]
  {
    var rowLen, c := w * bpp, x * bpp + t;
    PixelFits(x, w, bpp);
    Regroup(w, h, bpp);
    MirrorRowsByte(d, rowLen, h, c, y);
    ByteInRow(x, y, w, bpp, t);
    ByteInRow(x, h - 1 - y, w, bpp, t);
  }

  /** Pixel (x, y) of the row-mirrored buffer is pixel (x, h-1-y) of the original. */
  lemma MirrorRowsPixel(d: seq<byte>, w: nat, h: nat, bpp: nat, x: int, y: int)
    requires |d| == w * h * bpp && 0 <= x < w && 0 <= y < h
    ensures 0 <= (x + y * w) * bpp && (x + y * w) * bpp + bpp <= |d|
    ensures 0 <= (x + (h - 1 - y) * w) * bpp && (x + (h - 1 - y) * w) * bpp + bpp <= |d|
    ensures MirrorRows(d, w * bpp, h)[(x + y * w) * bpp .. (x + y * w) * bpp + bpp]
              == d[(x + (h - 1 - y) * w) * bpp .. (x + (h - 1 - y) * w) * bpp + bpp]
  {
    var i, j := (x + y * w) * bpp, (x + (h - 1 - y) * w) * bpp;
    InBuffer(x, y, w, h, bpp);
    InBuffer(x, h - 1 - y, w, h, bpp);
    var m := MirrorRows(d, w * bpp, h);
    var got, want := m[i .. i + bpp], d[j .. j + bpp];
    forall t | 0 <= t < bpp
      ensures got[t] == want[t]
    {
      MirrorRowsAt(d, w, h, bpp, x, y, t);
    }
    assert got == want;
  }

  /** Pixel (x, y) of the column-mirrored buffer is pixel (w-1-x, y) of the original. */
  lemma MirrorColumnsPixel(d: seq<byte>, w: nat, h: nat, bpp: nat, x: int, y: int)
    requires |d| == w * h * bpp && 0 <= x < w && 0 <= y < h
    ensures 0 <= (x + y * w) * bpp && (x + y * w) * bpp + bpp <= |d|
    ensures 0 <= ((w - 1 - x) + y * w) * bpp && ((w - 1 - x) + y * w) * bpp + bpp <= |d|
    ensures MirrorColumns(d, w, h, bpp)[(x + y * w) * bpp .. (x + y * w) * bpp + bpp]
              == d[((w - 1 - x) + y * w) * bpp .. ((w - 1 - x) + y * w) * bpp + bpp]
  {
    var i, j := (x + y * w) * bpp, ((w - 1 - x) + y * w) * bpp;
    InBuffer(x, y, w, h, bpp);
    InBuffer(w - 1 - x, y, w, h, bpp);
    var m := MirrorColumns(d, w, h, bpp);
    var got, want := m[i .. i + bpp], d[j .. j + bpp];
    forall t | 0 <= t < bpp
      ensures got[t] == want[t]
    {
      MirrorColumnsAt(d, w, h, bpp, x, y, t);
    }
    assert got == want;
  }

  /** Byte `t` of pixel (x, y) in the column-mirrored buffer is byte `t` of
      pixel (w-1-x, y) in the original. */
  lemma MirrorColumnsAt(d: seq<byte>, w: nat, h: nat, bpp: nat, x: int, y: int, t: int)
    requires |d| == w * h * bpp
    requires 0 <= x < w && 0 <= y < h && 0 <= t < bpp
    ensures 0 <= (x + y * w) * bpp + t < |d| && 0 <= ((w - 1 - x) + y * w) * bpp + t < |d|
    ensures MirrorColumns(d, w, h, bpp)[(x + y * w) * bpp + t] == d[((w - 1 - x) + y * w) * bpp + t]
  {
    ColumnMirrorAt(x, y, t, w, h, bpp);
  }

  lemma InBuffer(x: int, y: int, w: nat, h: nat, bpp: nat)
    requires 0 <= x < w && 0 <= y < h
    ensures 0 <= (x + y * w) * bpp && (x + y * w) * bpp + bpp <= w * h * bpp
  {
    RowMajorBelow(x, y, w, h);
    MulLeft(0, x + y * w, bpp);
    PixelFits(x + y * w, w * h, bpp);
  }

  /** After `flip_vertically()` pixel (x, y) holds what (x, h-1-y) held. */
  lemma FlipVerticallySwapsRows(img: Image, x: int, y: int)
    requires Valid(img) && InRange(img, x, y)
    ensures Get(FlipVertically(img).image, x, y) == Get(img, x, img.height - 1 - y)
  {
    var r := FlipVertically(img).image;
    PixelInBuffer(img, x, y);
    PixelInBuffer(img, x, img.height - 1 - y);
    MirrorRowsPixel(img.data.value, img.width, img.height, img.bytespp, x, y);
    assert PixelBytes(r, x, y) == PixelBytes(img, x, img.height - 1 - y);
  }

  /** After `flip_horizontally()` pixel (x, y) holds what (w-1-x, y) held. */
  lemma FlipHorizontallySwapsColumns(img: Image, x: int, y: int)
    requires Valid(img) && InRange(img, x, y)
    ensures Get(FlipHorizontally(img).image, x, y) == Get(img, img.width - 1 - x, y)
  {
    var r := FlipHorizontally(img).image;
    PixelInBuffer(img, x, y);
    PixelInBuffer(img, img.width - 1 - x, y);
    MirrorColumnsPixel(img.data.value, img.width, img.height, img.bytespp, x, y);
    assert PixelBytes(r, x, y) == PixelBytes(img, img.width - 1 - x, y);
  }

  lemma FlipVerticallyInvolution(img: Image)
    requires Valid(img)
    ensures FlipVertically(FlipVertically(img).image).image == img
  {
    if img.data.Some? {
      MirrorRowsTwice(img.data.value, img.width * img.bytespp, img.height);
    }
  }

  lemma FlipHorizontallyInvolution(img: Image)
    requires Valid(img)
    ensures FlipHorizontally(FlipHorizontally(img).image).image == img
  {
    if img.data.Some? {
      MirrorColumnsTwice(img.data.value, img.width, img.height, img.bytespp);
    }
  }

  lemma MirrorRowsTwice(d: seq<byte>, rowLen: nat, h: nat)
    requires |d| == rowLen * h
    ensures MirrorRows(MirrorRows(d, rowLen, h), rowLen, h) == d
  {
    var d2 := MirrorRows(MirrorRows(d, rowLen, h), rowLen, h);
    forall k | 0 <= k < |d|
      ensures d2[k] == d[k]
    {
      RowMirrorInvolution(k, rowLen, h);
    }
    assert d2 == d;
  }

  lemma MirrorColumnsTwice(d: seq<byte>, w: nat, h: nat, bpp: nat)
    requires |d| == w * h * bpp
    ensures MirrorColumns(MirrorColumns(d, w, h, bpp), w, h, bpp) == d
  {
    var d2 := MirrorColumns(MirrorColumns(d, w, h, bpp), w, h, bpp);
    forall k | 0 <= k < |d|
      ensures d2[k] == d[k]
    {
      ColumnMirrorInvolution(k, w, h, bpp);
    }
    assert d2 == d;
  }
}
