/** Facts about the flat-offset arithmetic `(x + y * w) * bpp` that the
    image, the RLE codec and the frame tiles share. */
module Arith {

  lemma MulLeft(a: int, b: int, c: nat)
    requires a <= b
    ensures a * c <= b * c
  {
    var d := b - a;
    assert b * c == a * c + d * c;
  }

  /** Pixel `i` of `n`, each `bpp` bytes wide, lies inside the `n * bpp` bytes. */
  lemma PixelFits(i: nat, n: nat, bpp: nat)
    requires i < n
    ensures i * bpp + bpp <= n * bpp
  {
    MulLeft(i + 1, n, bpp);
  }

  /** Division and remainder recover quotient and remainder uniquely. */
  lemma DivMod(q: int, r: int, n: int)
    requires n > 0 && 0 <= r < n
    ensures (q * n + r) / n == q
    ensures (q * n + r) % n == r
  {
    var k := q * n + r;
    var q' := k / n;
    var r' := k % n;
    assert k == q' * n + r';
    assert (q - q') * n == r' - r;
    if q - q' >= 1 {
      MulLeft(1, q - q', n);
    } else if q - q' <= -1 {
      MulLeft(q - q', -1, n);
    }
  }

  /** An offset below `n * m` has a quotient by `m` below `n`. */
  lemma QuotientBelow(k: int, n: int, m: nat)
    requires 0 <= k < n * m
    ensures m > 0 && 0 <= k / m < n
  {
    if m > 0 && k / m >= n {
      MulLeft(n, k / m, m);
    }
  }

  /** The row-major position of an in-range (x, y) is below `w * h`. */
  lemma RowMajorBelow(x: int, y: int, w: int, h: int)
    requires 0 <= x < w && 0 <= y < h
    ensures 0 <= x + y * w < w * h
  {
    MulLeft(0, y, w);
    MulLeft(y + 1, h, w);
  }

  /** `x + y * w` is injective on the columns `[0, w)`. */
  lemma RowMajorInjective(x1: int, y1: int, x2: int, y2: int, w: int)
    requires 0 <= x1 < w && 0 <= x2 < w
    requires x1 + y1 * w == x2 + y2 * w
    ensures x1 == x2 && y1 == y2
  {
    DivMod(y1, x1, w);
    DivMod(y2, x2, w);
  }

  /** Byte `u` of pixel `q` is outside the span of a different pixel `p`. */
  lemma SpanOutside(p: int, q: int, bpp: nat, u: int)
    requires p != q && 0 <= u < bpp
    ensures !(p * bpp <= q * bpp + u < p * bpp + bpp)
  {
    var t := q * bpp + u - p * bpp;
    if 0 <= t < bpp {
      DivMod(p, t, bpp);
      DivMod(q, u, bpp);
    }
  }

  /** Byte `t` of pixel (x, y) is byte `x * bpp + t` of row `y`. */
  lemma ByteInRow(x: int, y: int, w: int, bpp: int, t: int)
    ensures (x + y * w) * bpp + t == (x * bpp + t) + y * (w * bpp)
  {
    assert (x + y * w) * bpp == x * bpp + (y * w) * bpp;
  }

  /** `k` whole blocks of `b` fit into `a` exactly when `k` is at most `a / b`. */
  lemma BlocksFit(k: nat, a: nat, b: nat)
    requires b > 0
    ensures k * b <= a <==> k <= a / b
  {
    var q := a / b;
    var r := a % b;
    assert a == q * b + r;
    if k <= q {
      MulLeft(k, q, b);
    } else {
      MulLeft(q + 1, k, b);
    }
  }

  lemma Distribute(a: int, b: int, c: int)
    ensures (a + b) * c == a * c + b * c
  {
  }

  /** A buffer of `h` rows of `w * bpp` bytes holds `w * h * bpp` bytes. */
  lemma Regroup(w: int, h: int, bpp: int)
    ensures w * h * bpp == (w * bpp) * h
  {
  }
}
