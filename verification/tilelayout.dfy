/** The 2 x 2 tiling of the frame in `draw_3d_model_simple`: four tiles
    built from the halved frame size and all bound to the frame. */
module TileLayout {
  import opened Bytes
  import TgaImage
  import opened FrameTile

  /** `n / 2` and the rest: the two halves of a length, the second the larger. */
  function Halves(n: nat): (r: (nat, nat))
    ensures r.0 + r.1 == n
    ensures r.0 <= r.1 <= r.0 + 1
    ensures r.0 == r.1 <==> n % 2 == 0
  {
    (n / 2, n - n / 2)
  }

  /** The four tiles, given the width of the lower-left one; all bound to the frame. */
  function Quarters(frame: TgaImage.Image, lowerLeftWidth: int): (ts: seq<Tile>)
    requires frame.width >= 0 && frame.height >= 0
    ensures |ts| == 4
    ensures forall i | 0 <= i < 4 :: ts[i].binding == Some(Binding(frame.width, frame.height, frame.bytespp))
  {
    var (w1, w2) := Halves(frame.width);
    var (h1, h2) := Halves(frame.height);
    [ Init(NewTile(0, 0, w1, h1), frame),
      Init(NewTile(w1, 0, w2, h1), frame),
      Init(NewTile(0, h1, lowerLeftWidth, h2), frame),
      Init(NewTile(w1, h1, w2, h2), frame) ]
  }

  /** The tiles as `draw_3d_model_simple` builds them: the lower-left tile
      gets the right half's width. */
  function LayoutAsWritten(frame: TgaImage.Image): (ts: seq<Tile>)
    requires frame.width >= 0 && frame.height >= 0
    ensures |ts| == 4
    ensures forall i | 0 <= i < 4 :: ts[i].binding == Some(Binding(frame.width, frame.height, frame.bytespp))
  {
    Quarters(frame, Halves(frame.width).1)
  }

  /** The tiles with the lower-left tile as wide as the upper-left one. */
  function Layout(frame: TgaImage.Image): (ts: seq<Tile>)
    requires frame.width >= 0 && frame.height >= 0
    ensures |ts| == 4
    ensures forall i | 0 <= i < 4 :: ts[i].binding == Some(Binding(frame.width, frame.height, frame.bytespp))
  {
    Quarters(frame, Halves(frame.width).0)
  }

  /** How many of the tiles cover pixel (x, y). */
  function Cover(ts: seq<Tile>, x: int, y: int): (n: nat)
    ensures n <= |ts|
  {
    if |ts| == 0 then 0
    else (if Covers(ts[0], x, y) then 1 else 0) + Cover(ts[1..], x, y)
  }

  lemma CoverFour(ts: seq<Tile>, x: int, y: int)
    requires |ts| == 4
    ensures Cover(ts, x, y)
              == (if Covers(ts[0], x, y) then 1 else 0) + (if Covers(ts[1], x, y) then 1 else 0)
                 + (if Covers(ts[2], x, y) then 1 else 0) + (if Covers(ts[3], x, y) then 1 else 0)
  {
    var t1 := ts[1..];
    var t2 := t1[1..];
    var t3 := t2[1..];
    assert t1[0] == ts[1] && t2[0] == ts[2] && t3[0] == ts[3];
    assert Cover(t3[1..], x, y) == 0;
    assert Cover(t3, x, y) == (if Covers(ts[3], x, y) then 1 else 0);
    assert Cover(t2, x, y) == (if Covers(ts[2], x, y) then 1 else 0) + Cover(t3, x, y);
    assert Cover(t1, x, y) == (if Covers(ts[1], x, y) then 1 else 0) + Cover(t2, x, y);
  }

  /** Every pixel of the frame lies in exactly one tile, and no pixel
      outside the frame lies in any. */
  lemma LayoutPartitions(frame: TgaImage.Image, x: int, y: int)
    requires frame.width >= 0 && frame.height >= 0
    ensures Cover(Layout(frame), x, y)
              == if 0 <= x < frame.width && 0 <= y < frame.height then 1 else 0
  {
    CoverFour(Layout(frame), x, y);
  }

  /** With an even frame width the tiles as built partition the frame. */
  lemma LayoutAsWrittenEven(frame: TgaImage.Image, x: int, y: int)
    requires frame.width >= 0 && frame.height >= 0 && frame.width % 2 == 0
    ensures Cover(LayoutAsWritten(frame), x, y)
              == if 0 <= x < frame.width && 0 <= y < frame.height then 1 else 0
  {
    CoverFour(LayoutAsWritten(frame), x, y);
  }

  /** With an odd frame width the lower two tiles as built share the pixel
      in column `width / 2` of row `height / 2`: that pixel is drawn twice. */
  lemma LayoutAsWrittenOdd(frame: TgaImage.Image)
    requires frame.width >= 0 && frame.height >= 1 && frame.width % 2 == 1
    ensures var ts := LayoutAsWritten(frame);
      && Covers(ts[2], frame.width / 2, frame.height / 2)
      && Covers(ts[3], frame.width / 2, frame.height / 2)
      && Cover(ts, frame.width / 2, frame.height / 2) == 2
  {
    CoverFour(LayoutAsWritten(frame), frame.width / 2, frame.height / 2);
  }

  /** Whatever the width, the upper two tiles and the lower-right one as
      built never share a pixel. */
  lemma LayoutAsWrittenDisjoint(frame: TgaImage.Image, x: int, y: int)
    requires frame.width >= 0 && frame.height >= 0
    ensures var ts := LayoutAsWritten(frame);
      && !(Covers(ts[0], x, y) && Covers(ts[1], x, y))
      && !(Covers(ts[0], x, y) && Covers(ts[3], x, y))
      && !(Covers(ts[1], x, y) && Covers(ts[3], x, y))
  {
  }
}
