/** `FrameTile`: a rectangle of the frame that one drawing pass owns, and
    its access to the frame's shared pixel buffer and depth buffer. The
    buffers are passed in and handed back, so a tile only records what
    `init` copies out of the image: its size and depth. Depth values are an
    opaque element type. */
module FrameTile {
  import opened Bytes
  import opened Arith
  import opened TgaColor
  import TgaImage

  /** What `init` copies from the image: its size and bytes per pixel. */
  datatype Binding = Binding(imageWidth: int, imageHeight: int, bytespp: int)

  /** Origin and size of the rectangle; `binding` is `None` until `init`. */
  datatype Tile = Tile(originX: int, originY: int, sizeX: int, sizeY: int, binding: Option<Binding>)

  /** The constructor: the rectangle only, not yet bound to an image. */
  function NewTile(originX: int, originY: int, sizeX: int, sizeY: int): (t: Tile)
    ensures t.binding.None?
    ensures Left(t) == originX && Top(t) == originY
    ensures Right(t) - Left(t) == sizeX && Bottom(t) - Top(t) == sizeY
  {
    Tile(originX, originY, sizeX, sizeY, None)
  }

  /** `init(image, zbuffer)`: bind the tile to an image; the rectangle stays. */
  function Init(t: Tile, img: TgaImage.Image): (r: Tile)
    ensures r.binding == Some(Binding(img.width, img.height, img.bytespp))
    ensures Left(r) == Left(t) && Top(r) == Top(t) && Right(r) == Right(t) && Bottom(r) == Bottom(t)
  {
    t.(binding := Some(Binding(img.width, img.height, img.bytespp)))
  }

  /** `get_top()`: the first row of the tile. */
  function Top(t: Tile): (r: int)
    ensures r == t.originY
  {
    t.originY
  }

  /** `get_left()`: the first column of the tile. */
  function Left(t: Tile): (r: int)
    ensures r == t.originX
  {
    t.originX
  }

  /** `get_right()`: one past the last column, so the tile is `sizeX` wide. */
  function Right(t: Tile): (r: int)
    ensures r - Left(t) == t.sizeX
  {
    t.originX + t.sizeX
  }

  /** `get_bottom()`: one past the last row, so the tile is `sizeY` high. */
  function Bottom(t: Tile): (r: int)
    ensures r - Top(t) == t.sizeY
  {
    t.originY + t.sizeY
  }

  /** Pixel (x, y) lies in the tile's half-open rectangle. */
  predicate Covers(t: Tile, x: int, y: int)
  {
    Left(t) <= x < Right(t) && Top(t) <= y < Bottom(t)
  }

  predicate Bound(t: Tile)
  {
    t.binding.Some? && t.binding.value.imageWidth >= 0 && t.binding.value.imageHeight >= 0
  }

  /** (x, y) is a pixel of the bound image: coordinates are absolute. */
  predicate InImage(t: Tile, x: int, y: int)
    requires Bound(t)
  {
    0 <= x < t.binding.value.imageWidth && 0 <= y < t.binding.value.imageHeight
  }

  /** `index(x, y)`: the slot of (x, y) in the depth buffer, and in pixels
      in the colour buffer. The tile's origin is not added. */
  function Index(t: Tile, x: int, y: int): (k: int)
    requires Bound(t)
    ensures InImage(t, x, y) ==>
              0 <= k < t.binding.value.imageWidth * t.binding.value.imageHeight
  {
    var w, h := t.binding.value.imageWidth, t.binding.value.imageHeight;
    assert InImage(t, x, y) ==> 0 <= x + y * w < w * h by {
      if InImage(t, x, y) {
        RowMajorBelow(x, y, w, h);
      }
    }
    x + y * w
  }

  /** Distinct in-image coordinates have distinct slots, and equal ones equal slots. */
  lemma IndexInjective(t: Tile, x: int, y: int, x': int, y': int)
    requires Bound(t) && InImage(t, x, y) && InImage(t, x', y')
    ensures Index(t, x, y) == Index(t, x', y') <==> x == x' && y == y'
  {
    if Index(t, x, y) == Index(t, x', y') {
      RowMajorInjective(x, y, x', y', t.binding.value.imageWidth);
    }
  }

  /** Two tiles bound to the same image whose rectangles do not meet never
      address the same slot. */
  lemma DisjointTilesDisjointSlots(t: Tile, u: Tile, x: int, y: int, x': int, y': int)
    requires Bound(t) && u.binding == t.binding
    requires Covers(t, x, y) && InImage(t, x, y) && Covers(u, x', y') && InImage(u, x', y')
    requires !Covers(u, x, y)
    ensures Index(t, x, y) != Index(u, x', y')
  {
    IndexInjective(t, x, y, x', y');
  }

  /** The colour buffer holds the bound image's pixels. */
  ghost predicate Fits(t: Tile, data: seq<byte>)
  {
    && Bound(t) && t.binding.value.bytespp in {1, 3, 4}
    && |data| == t.binding.value.imageWidth * t.binding.value.imageHeight * t.binding.value.bytespp
  }

  /** The byte offset of pixel (x, y): `bytespp * index(x, y)`. */
  function Offset(t: Tile, x: int, y: int): (k: int)
    requires Bound(t)
  {
    t.binding.value.bytespp * Index(t, x, y)
  }

  /** The pixel's bytes lie inside the colour buffer. */
  lemma OffsetInBuffer(t: Tile, data: seq<byte>, x: int, y: int)
    requires Fits(t, data) && InImage(t, x, y)
    ensures 0 <= Offset(t, x, y) && Offset(t, x, y) + t.binding.value.bytespp <= |data|
  {
    var b := t.binding.value;
    var k := Index(t, x, y);
    MulLeft(0, k, b.bytespp);
    PixelFits(k, b.imageWidth * b.imageHeight, b.bytespp);
  }

  /** `get(x, y)`: the colour made of the `bytespp` bytes at the pixel's offset. */
  function Get(t: Tile, data: seq<byte>, x: int, y: int): (c: Color)
    requires Fits(t, data) && InImage(t, x, y)
    ensures c.bytespp == t.binding.value.bytespp
    ensures 0 <= Offset(t, x, y) && Offset(t, x, y) + c.bytespp <= |data|
    ensures forall k | 0 <= k < c.bytespp :: c.bgra[k] == data[Offset(t, x, y) + k]
    ensures forall k | c.bytespp <= k < 4 :: c.bgra[k] == 0
  {
    OffsetInBuffer(t, data, x, y);
    FromBytes(data[Offset(t, x, y)..], t.binding.value.bytespp)
  }

  /** `set(x, y, c)`: the first `bytespp` bytes of `c` copied over the
      pixel's bytes; every other byte stays. */
  function Set(t: Tile, data: seq<byte>, x: int, y: int, c: Color): (r: seq<byte>)
    requires Fits(t, data) && InImage(t, x, y)
    ensures |r| == |data|
    ensures forall k :: 0 <= k < |data| ==>
              r[k] == if Offset(t, x, y) <= k < Offset(t, x, y) + t.binding.value.bytespp
                      then c.bgra[k - Offset(t, x, y)] else data[k]
  {
    OffsetInBuffer(t, data, x, y);
    Splice(data, Offset(t, x, y), Prefix(c, t.binding.value.bytespp))
  }

  /** A `get` after a `set` at the same place gives the colour cut to the depth. */
  lemma GetAfterSet(t: Tile, data: seq<byte>, x: int, y: int, c: Color)
    requires Fits(t, data) && InImage(t, x, y)
    ensures Get(t, Set(t, data, x, y, c), x, y) == FromBytes(Prefix(c, t.binding.value.bytespp), t.binding.value.bytespp)
  {
    var bpp := t.binding.value.bytespp;
    var r := Set(t, data, x, y, c);
    var o := Offset(t, x, y);
    OffsetInBuffer(t, data, x, y);
    assert r[o..][..bpp] == Prefix(c, bpp);
  }

  /** The depth buffer holds one slot per pixel of the bound image. */
  ghost predicate DepthFits<Z>(t: Tile, zbuffer: seq<Z>)
  {
    Bound(t) && |zbuffer| == t.binding.value.imageWidth * t.binding.value.imageHeight
  }

  /** `get_z(x, y)`. */
  function GetZ<Z>(t: Tile, zbuffer: seq<Z>, x: int, y: int): (z: Z)
    requires DepthFits(t, zbuffer) && InImage(t, x, y)
    ensures Index(t, x, y) == x + y * t.binding.value.imageWidth && z == zbuffer[Index(t, x, y)]
  {
    zbuffer[Index(t, x, y)]
  }

  /** `set_z(x, y, z)`: only the pixel's slot changes. */
  function SetZ<Z>(t: Tile, zbuffer: seq<Z>, x: int, y: int, z: Z): (r: seq<Z>)
    requires DepthFits(t, zbuffer) && InImage(t, x, y)
    ensures |r| == |zbuffer|
    ensures Index(t, x, y) == x + y * t.binding.value.imageWidth
    ensures forall k | 0 <= k < |r| :: r[k] == if k == Index(t, x, y) then z else zbuffer[k]
  {
    zbuffer[Index(t, x, y) := z]
  }

  /** A `get_z` after a `set_z` gives the value back at the same pixel and
      the old value at every other pixel. */
  lemma GetZAfterSetZ<Z>(t: Tile, zbuffer: seq<Z>, x: int, y: int, z: Z, x': int, y': int)
    requires DepthFits(t, zbuffer) && InImage(t, x, y) && InImage(t, x', y')
    ensures GetZ(t, SetZ(t, zbuffer, x, y, z), x', y')
              == if x == x' && y == y' then z else GetZ(t, zbuffer, x', y')
  {
    IndexInjective(t, x, y, x', y');
  }

  /** Once bound, a tile addresses the pixel bytes `TGAImage::index` does,
      reads what `TGAImage::get` reads and writes what `TGAImage::set` writes. */
  lemma InitAgreesWithImage(t: Tile, img: TgaImage.Image, x: int, y: int, c: Color)
    requires TgaImage.Valid(img) && img.data.Some? && img.bytespp in {1, 3, 4}
    requires 0 <= x < img.width && 0 <= y < img.height
    ensures var b := Init(t, img);
      && Fits(b, img.data.value) && InImage(b, x, y)
      && Offset(b, x, y) == TgaImage.Index(img, x, y)
      && Get(b, img.data.value, x, y) == TgaImage.Get(img, x, y)
      && Set(b, img.data.value, x, y, c) == TgaImage.Set(img, x, y, c).image.data.value
  {
    var b := Init(t, img);
    var d := img.data.value;
    TgaImage.PixelInBuffer(img, x, y);
    assert Offset(b, x, y) == TgaImage.Index(img, x, y);
    assert d[Offset(b, x, y)..][..img.bytespp] == TgaImage.PixelBytes(img, x, y);
  }

  /** `index(x, y)` checks nothing: a column past the right edge of the
      image addresses the start of the next row. */
  lemma IndexWraps(t: Tile, x: int, y: int)
    requires Bound(t)
    ensures Index(t, x + t.binding.value.imageWidth, y) == Index(t, x, y + 1)
  {
  }

  /** Only the binding decides what a tile reads and writes: two tiles
      bound to the same image, whatever their rectangles, read and write
      the same slots for the same pixel. */
  lemma OriginIgnored<Z>(t: Tile, u: Tile, data: seq<byte>, zbuffer: seq<Z>, x: int, y: int, c: Color, z: Z)
    requires Fits(t, data) && DepthFits(t, zbuffer) && InImage(t, x, y) && u.binding == t.binding
    ensures Get(u, data, x, y) == Get(t, data, x, y)
    ensures Set(u, data, x, y, c) == Set(t, data, x, y, c)
    ensures GetZ(u, zbuffer, x, y) == GetZ(t, zbuffer, x, y)
    ensures SetZ(u, zbuffer, x, y, z) == SetZ(t, zbuffer, x, y, z)
  {
  }
}
