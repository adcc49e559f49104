/**
 * Pixel arithmetic of the mosaic: the masked blend of DatabaseMatcher.Blend
 * and the channel sums that stand for Emgu's GetAverage.
 */
module Pixels {
  import opened Selection

  /** A byte image pixel: every channel in 0..255. */
  predicate IsBytePixel(p: Bgr)
  {
    0 <= p.blue <= 255 && 0 <= p.green <= 255 && 0 <= p.red <= 255
  }

  /**
   * One channel of the blend, stored into a byte image. The source computes
   * a * f + b * (1 - f) with f = m / 255 in doubles; the exact value is
   * (a * m + b * (255 - m)) / 255 and the byte image keeps the nearest
   * integer. That value is never halfway between two integers (255 is odd),
   * so the nearest integer is unique and the result r lies strictly within
   * one half of the exact value.
   */
  function BlendChannel(a: int, b: int, m: int): int
    requires 0 <= m <= 255
  {
    (2 * (a * m + b * (255 - m)) + 255) / 510
  }

  /** The blended channel is the nearest integer to the exact weighted mean: within one half of it. */
  lemma BlendChannelNearest(a: int, b: int, m: int)
    requires 0 <= m <= 255
    ensures var r := BlendChannel(a, b, m);
      2 * (a * m + b * (255 - m)) - 255 < 510 * r < 2 * (a * m + b * (255 - m)) + 255
  {
  }

  /** Where the mask is 0 the blend is the tile's channel. */
  lemma BlendChannelAtZero(a: int, b: int)
    ensures BlendChannel(a, b, 0) == b
  {
  }

  /** Where the mask is 255 the blend is the patch's channel. */
  lemma BlendChannelAtFull(a: int, b: int)
    ensures BlendChannel(a, b, 255) == a
  {
  }

  /** v lies between a and b, whichever of the two is smaller. */
  predicate Between(v: int, a: int, b: int)
  {
    (a <= b ==> a <= v <= b) && (b <= a ==> b <= v <= a)
  }

  /** The blend of two channels lies between them. */
  lemma BlendChannelBetween(a: int, b: int, m: int)
    requires 0 <= m <= 255
    ensures Between(BlendChannel(a, b, m), a, b)
  {
    var r := BlendChannel(a, b, m);
    if a <= b {
      WeightedBetween(a, b, m);
    } else {
      WeightedBetween(b, a, 255 - m);
      assert b * (255 - m) + a * (255 - (255 - m)) == a * m + b * (255 - m);
    }
  }

  /** lo * m + hi * (255 - m) is at least 255 * lo and at most 255 * hi, and so is its rounded quotient by 255. */
  lemma WeightedBetween(lo: int, hi: int, m: int)
    requires lo <= hi && 0 <= m <= 255
    ensures var r := BlendChannel(lo, hi, m); lo <= r <= hi
  {
    var n := lo * m + hi * (255 - m);
    var r := BlendChannel(lo, hi, m);
    assert n - 255 * lo == (hi - lo) * (255 - m);
    assert 255 * hi - n == (hi - lo) * m;
    MulNonNegative(hi - lo, 255 - m);
    MulNonNegative(hi - lo, m);
    assert 510 * lo - 255 <= 2 * n - 255 < 510 * r;
    assert 510 * r < 2 * n + 255 <= 510 * hi + 255;
  }

  lemma MulNonNegative(x: int, y: int)
    requires x >= 0 && y >= 0
    ensures x * y >= 0
  {
  }

  /**
   * Per pixel: output = A * m/255 + B * (1 - m/255) on each of the three
   * channels, rounded to bytes; every channel of the result lies between
   * the two input channels.
   */
  function Mix(a: Bgr, b: Bgr, m: int): (p: Bgr)
    requires 0 <= m <= 255
    ensures Between(p.blue, a.blue, b.blue) && Between(p.green, a.green, b.green) && Between(p.red, a.red, b.red)
  {
    BlendChannelBetween(a.blue, b.blue, m);
    BlendChannelBetween(a.green, b.green, m);
    BlendChannelBetween(a.red, b.red, m);
    Bgr(BlendChannel(a.blue, b.blue, m), BlendChannel(a.green, b.green, m), BlendChannel(a.red, b.red, m))
  }

  /**
   * The pixel-level facts of Blend: mask 0 gives the tile pixel, mask 255
   * the patch pixel, and two byte pixels blend into a byte pixel, so storing
   * the result into a byte image never saturates.
   */
  lemma MixProperties(a: Bgr, b: Bgr, m: int)
    requires 0 <= m <= 255
    ensures m == 0 ==> Mix(a, b, m) == b
    ensures m == 255 ==> Mix(a, b, m) == a
    ensures IsBytePixel(a) && IsBytePixel(b) ==> IsBytePixel(Mix(a, b, m))
  {
  }

  function Add(p: Bgr, q: Bgr): Bgr
  {
    Bgr(p.blue + q.blue, p.green + q.green, p.red + q.red)
  }

  const Black := Bgr(0, 0, 0)

  /** The pixels of an image as a value, column by column: g[x][y] is pixel (x, y). */
  type Raster = seq<seq<Bgr>>

  /** g is w columns of h elements each. */
  ghost predicate IsImage<T>(g: seq<seq<T>>, w: nat, h: nat)
  {
    |g| == w && forall x :: 0 <= x < w ==> |g[x]| == h
  }

  /** The contents of a two-dimensional array as a value: g[x][y] is element (x, y). */
  function Snapshot<T>(img: array2<T>): (g: seq<seq<T>>)
    reads img
    ensures IsImage(g, img.Length0, img.Length1)
    ensures forall x, y :: 0 <= x < img.Length0 && 0 <= y < img.Length1 ==> g[x][y] == img[x, y]
  {
    seq(img.Length0, x requires 0 <= x < img.Length0 reads img =>
      seq(img.Length1, y requires 0 <= y < img.Length1 reads img => img[x, y]))
  }

  /** The w x h rectangle of g at (x0, y0), as Emgu's Image.Copy(rect) returns it. */
  function Crop(g: Raster, x0: nat, y0: nat, w: nat, h: nat): (r: Raster)
    requires x0 + w <= |g| && forall x :: x0 <= x < x0 + w ==> y0 + h <= |g[x]|
    ensures IsImage(r, w, h)
    ensures forall i, j :: 0 <= i < w && 0 <= j < h ==> r[i][j] == g[x0 + i][y0 + j]
  {
    seq(w, i requires 0 <= i < w => seq(h, j requires 0 <= j < h => g[x0 + i][y0 + j]))
  }

  /**
   * What Blend returns for images a (with columns of height ah), b and mask
   * m: an image of a's size, black except its top-left w x h pixels, each
   * of which mixes a and b by m.
   */
  function Blended(a: Raster, ah: nat, b: Raster, m: seq<seq<int>>, w: nat, h: nat): (out: Raster)
    requires IsImage(a, |a|, ah) && w <= |a| && h <= ah
    requires w <= |b| && w <= |m| && forall x :: 0 <= x < w ==> h <= |b[x]| && h <= |m[x]|
    requires forall x, y :: 0 <= x < w && 0 <= y < h ==> 0 <= m[x][y] <= 255
    ensures IsImage(out, |a|, ah)
    ensures forall x, y :: 0 <= x < |a| && 0 <= y < ah ==>
      out[x][y] == if x < w && y < h then Mix(a[x][y], b[x][y], m[x][y]) else Black
  {
    seq(|a|, x requires 0 <= x < |a| =>
      seq(ah, y requires 0 <= y < ah => if x < w && y < h then Mix(a[x][y], b[x][y], m[x][y]) else Black))
  }

  /** g with image p written over the rectangle at (x0, y0): setting the ROI and CopyTo. */
  function Overlay(g: Raster, h: nat, p: Raster, pw: nat, ph: nat, x0: nat, y0: nat): (out: Raster)
    requires IsImage(g, |g|, h) && IsImage(p, pw, ph) && x0 + pw <= |g| && y0 + ph <= h
    ensures IsImage(out, |g|, h)
    ensures forall x, y :: 0 <= x < |g| && 0 <= y < h ==>
      out[x][y] == if x0 <= x < x0 + pw && y0 <= y < y0 + ph then p[x - x0][y - y0] else g[x][y]
  {
    seq(|g|, x requires 0 <= x < |g| =>
      seq(h, y requires 0 <= y < h => if x0 <= x < x0 + pw && y0 <= y < y0 + ph then p[x - x0][y - y0] else g[x][y]))
  }

  /** s is a sum of n byte pixels at most: each channel in 0 .. 255 * n, so s / n is a byte colour. */
  predicate ByteSum(s: Bgr, n: nat)
  {
    0 <= s.blue <= 255 * n && 0 <= s.green <= 255 * n && 0 <= s.red <= 255 * n
  }

  /** Every pixel of g is a byte pixel. */
  ghost predicate AllBytes(g: Raster)
  {
    forall x, y :: 0 <= x < |g| && 0 <= y < |g[x]| ==> IsBytePixel(g[x][y])
  }

  /** The number of pixels of g. */
  function PixelCount(g: Raster): nat
  {
    if g == [] then 0 else PixelCount(g[..|g| - 1]) + |g[|g| - 1]|
  }

  /** Channel sums of a column of pixels; over byte pixels, at most 255 per pixel and channel. */
  function ColumnSum(column: seq<Bgr>): (s: Bgr)
    ensures (forall y :: 0 <= y < |column| ==> IsBytePixel(column[y])) ==> ByteSum(s, |column|)
  {
    if column == [] then Black else Add(ColumnSum(column[..|column| - 1]), column[|column| - 1])
  }

  /**
   * Channel sums over every pixel: GetAverage() of the image times its
   * number of pixels. For a byte image the sum divided by the pixel count
   * is again a byte colour.
   */
  function PixelSum(g: Raster): (s: Bgr)
    ensures AllBytes(g) ==> ByteSum(s, PixelCount(g))
  {
    if g == [] then Black
    else
      var init := g[..|g| - 1];
      assert AllBytes(g) ==> AllBytes(init) by {
        if AllBytes(g) {
          forall x, y | 0 <= x < |init| && 0 <= y < |init[x]| ensures IsBytePixel(init[x][y]) {
            assert init[x] == g[x];
          }
        }
      }
      Add(PixelSum(init), ColumnSum(g[|g| - 1]))
  }
}
