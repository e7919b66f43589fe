/**
 * Image geometry derived from the payload length L (PngEncoder.java:221-223):
 * width W = ceil(sqrt(L / 3)) and height H = ceil(L / W / 3), computed in the
 * source with doubles.  Here both are stated exactly in integers: W is the
 * least w with 3*w*w >= L, and H the least h with 3*W*h >= L.  For L = 0 the
 * source gets W = 0 and H = (int) NaN = 0, which is kept.
 */
module Geometry {
  import opened ByteOrder

  /** Three bytes (R, G, B) per pixel. */
  const BytesPerPixel: nat := 3

  lemma SquareAtLeast(w: nat)
    ensures w <= 3 * w * w
  {
    if w > 0 {
      assert w * w >= w by {
        assert w * w == w * (w - 1) + w;
      }
    }
  }

  /** The least width from `w` upward whose 3*w*w bytes hold `L`. */
  function WidthFrom(L: nat, w: nat): (r: nat)
    requires w == 0 || 3 * (w - 1) * (w - 1) < L
    ensures 3 * r * r >= L
    ensures r == 0 || 3 * (r - 1) * (r - 1) < L
    decreases L - w
  {
    if 3 * w * w >= L then w
    else
      SquareAtLeast(w);
      WidthFrom(L, w + 1)
  }

  /** `ihdrImageWidth`: ceil(sqrt(L / 3)). */
  function Width(L: nat): (w: nat)
  {
    WidthFrom(L, 0)
  }

  /** `ihdrImageHeight`: ceil(L / (3 * W)), and 0 when W is 0. */
  function Height(L: nat): (h: nat)
  {
    var w := Width(L);
    if w == 0 then 0 else (L + BytesPerPixel * w - 1) / (BytesPerPixel * w)
  }

  /**
   * `ihdrImageWidth` for any `int` length: a negative length makes the
   * square root NaN, which casts to 0.
   */
  function ImageWidth(L: Int32): (w: Int32)
    ensures w >= 0
  {
    if L <= 0 then 0 else GeometryBounds(L); Width(L)
  }

  /**
   * `ihdrImageHeight` for any `int` length: 0 / 0.0 is NaN, which casts to
   * 0, and a negative length over a zero width is negative infinity, which
   * casts to `Integer.MIN_VALUE`.
   */
  function ImageHeight(L: Int32): Int32
  {
    if L < 0 then -TwoTo31 else if L == 0 then 0 else GeometryBounds(L); Height(L)
  }

  /** The length of one row of pixel bytes (`row.length`). */
  function RowLength(L: nat): nat
  {
    BytesPerPixel * Width(L)
  }

  lemma {:induction false} WidthIsLeast(L: nat, w: nat)
    requires 3 * w * w >= L
    ensures Width(L) <= w
  {
    var r := Width(L);
    if r > w {
      assert r - 1 >= w;
      assert (r - 1) * (r - 1) >= w * w by {
        MulMono(r - 1, w);
      }
    }
  }

  lemma MulMono(a: nat, b: nat)
    requires a >= b
    ensures a * a >= b * b
  {
    assert a * a == b * b + (a - b) * (a + b);
  }

  /**
   * The rows hold the payload, and no row is wasted: 3*W*H >= L and
   * 3*W*(H-1) < L, so for a correctly declared length every row read
   * gets at least one byte (PngEncoder.java:264-269 never throws).  Also
   * H <= W and W <= L, and L = 0 gives the empty image.
   */
  lemma {:induction false} GeometryBounds(L: nat)
    ensures L == 0 ==> Width(L) == 0 && Height(L) == 0
    ensures L >= 1 ==> Width(L) >= 1 && Height(L) >= 1
    ensures L >= 1 ==> RowLength(L) * Height(L) >= L
    ensures L >= 1 ==> RowLength(L) * (Height(L) - 1) < L
    ensures Height(L) <= Width(L) <= L
  {
    var w := Width(L);
    if L == 0 {
      WidthIsLeast(0, 0);
    } else {
      assert w >= 1;
      WidthIsLeast(L, L) by {
        SquareAtLeast(L);
      }
      var k := 3 * w;
      var h := Height(L);
      assert h == (L + k - 1) / k;
      DivBounds(L, k);
      assert h <= w by {
        assert k * w >= L;
        CeilDivAtMost(L, k, w);
      }
    }
  }

  /** Ceiling division: k*h >= L > k*(h-1) for h = (L + k - 1) / k. */
  lemma DivBounds(L: nat, k: nat)
    requires L >= 1 && k >= 1
    ensures var h := (L + k - 1) / k; h >= 1 && k * h >= L && k * (h - 1) < L
  {
    var h := (L + k - 1) / k;
    var m := (L + k - 1) % k;
    assert L + k - 1 == k * h + m;
  }

  lemma PositiveFactor(k: nat, x: int)
    requires k * x > 0
    ensures x > 0
  {
  }

  lemma CeilDivAtMost(L: nat, k: nat, w: nat)
    requires k >= 1 && k * w >= L
    ensures (L + k - 1) / k <= w
  {
    var h := (L + k - 1) / k;
    var m := (L + k - 1) % k;
    assert L + k - 1 == k * h + m;
    assert k * h <= L + k - 1 < k * (w + 1);
    assert k * (w + 1 - h) == k * (w + 1) - k * h;
    PositiveFactor(k, w + 1 - h);
  }
}
