/**
 * The canvas that Work produces, stated on values: each cell of the grid,
 * in row-major order, is replaced by the masked blend of its own pixels
 * with the tile chosen for it.
 */
module Mosaic {
  import opened Selection
  import opened Pixels
  import opened Grid

  /** Load resizes every database image to 60 x 60 pixels; cells and the mask have that size too. */
  const TileSide: nat := 60

  /** Every tile is TileSide x TileSide. */
  ghost predicate AreTiles(tiles: seq<Raster>)
  {
    forall i :: 0 <= i < |tiles| ==> IsImage(tiles[i], TileSide, TileSide)
  }

  /** The blend mask: a TileSide x TileSide Gray byte image. */
  ghost predicate IsMask(mask: seq<seq<int>>)
  {
    IsImage(mask, TileSide, TileSide)
    && forall x, y :: 0 <= x < TileSide && 0 <= y < TileSide ==> 0 <= mask[x][y] <= 255
  }

  /**
   * Where band n of the grid starts: n * TileSide (BandIsProduct), the
   * offset c * sizex or r * sizey of ProcessCell, accumulated one band at a
   * time so that the reasoning about the scan stays linear.
   */
  function Band(n: nat): nat
  {
    if n == 0 then 0 else Band(n - 1) + TileSide
  }

  lemma {:induction false} BandIsProduct(n: nat)
    ensures Band(n) == n * TileSide
  {
    if n > 0 {
      BandIsProduct(n - 1);
    }
  }

  lemma {:induction false} BandMonotone(a: nat, b: nat)
    requires a <= b
    ensures Band(a) <= Band(b)
    decreases b
  {
    if a < b {
      BandMonotone(a, b - 1);
    }
  }

  /** k whole bands fit into n pixels and k + 1 do not: k is n / TileSide, the grid size Work computes. */
  predicate WholeBands(n: nat, k: nat)
  {
    Band(k) <= n < Band(k + 1)
  }

  lemma WholeBandsIsQuotient(n: nat, k: nat)
    ensures WholeBands(n, k) <==> k == n / TileSide
  {
    BandIsProduct(k);
    BandIsProduct(k + 1);
    if k == n / TileSide {
      DivBounds(n, TileSide);
    } else if WholeBands(n, k) {
      CoordinateOfCell(n, TileSide, k);
    }
  }

  /**
   * The number of whole bands in n pixels, counted by repeated subtraction:
   * the quotient n / TileSide (WholeBandsIsQuotient) without a division.
   */
  function CountBands(n: nat): (k: nat)
    ensures WholeBands(n, k)
    decreases n
  {
    if n < TileSide then 0 else CountBands(n - TileSide) + 1
  }

  /** A w x h canvas holds the rows x cols grid of cells. */
  predicate HoldsGrid(w: nat, h: nat, rows: nat, cols: nat)
  {
    Band(cols) <= w && Band(rows) <= h
  }

  lemma HoldsGridIsProduct(w: nat, h: nat, rows: nat, cols: nat)
    ensures HoldsGrid(w, h, rows, cols) <==> cols * TileSide <= w && rows * TileSide <= h
  {
    BandIsProduct(rows);
    BandIsProduct(cols);
  }

  /** The rectangle of cell (r, c): CellRect(r, c, TileSide, TileSide) (CellIsCellRect). */
  function Cell(r: nat, c: nat): Rect
  {
    Rect(Band(c), Band(r), TileSide, TileSide)
  }

  lemma CellIsCellRect(r: nat, c: nat)
    ensures Cell(r, c) == CellRect(r, c, TileSide, TileSide)
  {
    BandIsProduct(r);
    BandIsProduct(c);
  }

  /** Every cell of a grid lies inside a canvas that holds the grid. */
  lemma CellInGrid(w: nat, h: nat, rows: nat, cols: nat, r: nat, c: nat)
    requires HoldsGrid(w, h, rows, cols) && r < rows && c < cols
    ensures Within(Cell(r, c), w, h)
  {
    BandMonotone(r + 1, rows);
    BandMonotone(c + 1, cols);
  }

  /**
   * What ProcessCell writes: g with every pixel of cell (r, c) replaced by
   * the blend of that pixel with the pixel at the same offset in the tile,
   * weighted by the mask at that offset; every other pixel is kept.
   */
  function BlendCell(g: Raster, h: nat, tile: Raster, mask: seq<seq<int>>, r: nat, c: nat): (out: Raster)
    requires IsImage(g, |g|, h) && IsImage(tile, TileSide, TileSide) && IsMask(mask)
    requires Within(Cell(r, c), |g|, h)
    ensures IsImage(out, |g|, h)
    ensures forall x, y :: 0 <= x < |g| && 0 <= y < h ==>
      out[x][y] == if Contains(Cell(r, c), x, y)
        then Mix(g[x][y], tile[x - Band(c)][y - Band(r)], mask[x - Band(c)][y - Band(r)])
        else g[x][y]
  {
    var x0, y0 := Band(c), Band(r);
    seq(|g|, x requires 0 <= x < |g| =>
      seq(h, y requires 0 <= y < h =>
        if x0 <= x < x0 + TileSide && y0 <= y < y0 + TileSide
        then Mix(g[x][y], tile[x - x0][y - y0], mask[x - x0][y - y0])
        else g[x][y]))
  }

  /**
   * ProcessCell's three steps compose to BlendCell: copy the cell, blend
   * the copy with the tile under the mask, write the blend back over the
   * cell.
   */
  lemma CopyBlendPaste(g: Raster, h: nat, tile: Raster, mask: seq<seq<int>>, r: nat, c: nat)
    requires IsImage(g, |g|, h) && IsImage(tile, TileSide, TileSide) && IsMask(mask)
    requires Within(Cell(r, c), |g|, h)
    ensures var x0, y0 := Band(c), Band(r);
      var patch := Crop(g, x0, y0, TileSide, TileSide);
      Overlay(g, h, Blended(patch, TileSide, tile, mask, TileSide, TileSide), TileSide, TileSide, x0, y0)
        == BlendCell(g, h, tile, mask, r, c)
  {
    var x0, y0 := Band(c), Band(r);
    var patch := Crop(g, x0, y0, TileSide, TileSide);
    var a := Overlay(g, h, Blended(patch, TileSide, tile, mask, TileSide, TileSide), TileSide, TileSide, x0, y0);
    var b := BlendCell(g, h, tile, mask, r, c);
    forall x | 0 <= x < |g|
      ensures a[x] == b[x]
    {
    }
  }

  /**
   * The cells of a rows x cols grid in the order Work visits them: row by
   * row, each row left to right.
   */
  function Cells(rows: nat, cols: nat): (cs: seq<(nat, nat)>)
    ensures forall t :: 0 <= t < |cs| ==> cs[t].0 < rows && cs[t].1 < cols
  {
    if rows == 0 then []
    else Cells(rows - 1, cols) + seq(cols, c requires 0 <= c < cols => (rows - 1, c))
  }

  /** There are rows * cols cells, and the t-th cell has row-major index t. */
  lemma {:induction false} CellsIndex(rows: nat, cols: nat)
    ensures var cs := Cells(rows, cols);
      |cs| == rows * cols && forall t :: 0 <= t < |cs| ==> RowMajor(cs[t].0, cs[t].1, rows, cols) == t
  {
    if rows > 0 {
      CellsIndex(rows - 1, cols);
      var cs := Cells(rows, cols);
      var above := Cells(rows - 1, cols);
      assert rows * cols == (rows - 1) * cols + cols;
      forall t | 0 <= t < |cs|
        ensures RowMajor(cs[t].0, cs[t].1, rows, cols) == t
      {
        if t < |above| {
          assert cs[t] == above[t];
          assert RowMajor(above[t].0, above[t].1, rows - 1, cols) == t;
        } else {
          assert cs[t] == (rows - 1, t - |above|);
        }
      }
    }
  }

  /** Every cell of the grid is listed, at its row-major index. */
  lemma CellAt(rows: nat, cols: nat, r: nat, c: nat)
    requires r < rows && c < cols
    ensures RowMajor(r, c, rows, cols) < |Cells(rows, cols)|
    ensures Cells(rows, cols)[RowMajor(r, c, rows, cols)] == (r, c)
  {
    CellsIndex(rows, cols);
    var cs := Cells(rows, cols);
    var t := RowMajor(r, c, rows, cols);
    RowMajorUnique(cs[t].0, cs[t].1, r, c, cols);
  }

  /**
   * How many cells the row-major scan visits before it reaches position
   * (r, c), counted one step at a time: each cell of a row is one more, and
   * the start of a row is the end of the row above.
   */
  function Before(cols: nat, r: nat, c: nat): nat
    decreases r, c
  {
    if c > 0 then Before(cols, r, c - 1) + 1
    else if r > 0 then Before(cols, r - 1, cols)
    else 0
  }

  /** The count is the row-major index r * cols + c. */
  lemma {:induction false} BeforeIsRowMajor(cols: nat, r: nat, c: nat)
    ensures Before(cols, r, c) == r * cols + c
    decreases r, c
  {
    if c > 0 {
      BeforeIsRowMajor(cols, r, c - 1);
    } else if r > 0 {
      BeforeIsRowMajor(cols, r - 1, cols);
      assert (r - 1) * cols + cols == r * cols;
    }
  }

  /** The scan reaches cell (r, c) after Before(cols, r, c) cells. */
  lemma CellBefore(rows: nat, cols: nat, r: nat, c: nat)
    requires r < rows && c < cols
    ensures Before(cols, r, c) < |Cells(rows, cols)| && Cells(rows, cols)[Before(cols, r, c)] == (r, c)
  {
    BeforeIsRowMajor(cols, r, c);
    CellAt(rows, cols, r, c);
  }

  /** The whole grid comes before (rows, 0). */
  lemma CellsBeforeEnd(rows: nat, cols: nat)
    ensures Before(cols, rows, 0) == |Cells(rows, cols)|
  {
    CellsIndex(rows, cols);
    BeforeIsRowMajor(cols, rows, 0);
  }

  /** No cell is listed twice. */
  lemma CellsDistinct(rows: nat, cols: nat)
    ensures var cs := Cells(rows, cols); forall i, j :: 0 <= i < j < |cs| ==> cs[i] != cs[j]
  {
    CellsIndex(rows, cols);
  }

  /** Every listed cell lies in a canvas of at least rows x cols cells. */
  lemma CellsWithin(rows: nat, cols: nat, w: nat, h: nat)
    requires HoldsGrid(w, h, rows, cols)
    ensures var cs := Cells(rows, cols);
      forall t :: 0 <= t < |cs| ==> Within(Cell(cs[t].0, cs[t].1), w, h)
  {
    var cs := Cells(rows, cols);
    forall t | 0 <= t < |cs|
      ensures Within(Cell(cs[t].0, cs[t].1), w, h)
    {
      CellInGrid(w, h, rows, cols, cs[t].0, cs[t].1);
    }
  }

  /** The listed cells fit in the canvas and each choice names a tile. */
  ghost predicate Placed(w: nat, h: nat, tiles: seq<Raster>, cs: seq<(nat, nat)>, ks: seq<nat>)
  {
    && |ks| == |cs|
    && (forall i :: 0 <= i < |cs| ==> Within(Cell(cs[i].0, cs[i].1), w, h))
    && (forall i :: 0 <= i < |ks| ==> ks[i] < |tiles|)
  }

  /** The canvas after ProcessCell has run on cells cs in order, cell cs[i] taking tile ks[i]. */
  function Paint(g: Raster, h: nat, tiles: seq<Raster>, mask: seq<seq<int>>, cs: seq<(nat, nat)>, ks: seq<nat>): (out: Raster)
    requires IsImage(g, |g|, h) && AreTiles(tiles) && IsMask(mask)
    requires Placed(|g|, h, tiles, cs, ks)
    ensures IsImage(out, |g|, h)
    decreases |cs|
  {
    if cs == [] then g
    else
      var n := |cs| - 1;
      BlendCell(Paint(g, h, tiles, mask, cs[..n], ks[..n]), h, tiles[ks[n]], mask, cs[n].0, cs[n].1)
  }

  /** A pixel's offset inside its cell is its coordinate modulo TileSide. */
  lemma OffsetInCell(p: nat, k: nat)
    requires k == p / TileSide
    ensures p - Band(k) == p % TileSide
  {
    BandIsProduct(k);
  }

  /** A pixel whose cell is not among the painted cells keeps its original value. */
  lemma {:induction false} PaintUnlisted(g: Raster, h: nat, tiles: seq<Raster>, mask: seq<seq<int>>,
                                         cs: seq<(nat, nat)>, ks: seq<nat>, x: nat, y: nat)
    requires IsImage(g, |g|, h) && AreTiles(tiles) && IsMask(mask)
    requires Placed(|g|, h, tiles, cs, ks)
    requires x < |g| && y < h
    requires forall i :: 0 <= i < |cs| ==> cs[i] != (y / TileSide, x / TileSide)
    ensures Paint(g, h, tiles, mask, cs, ks)[x][y] == g[x][y]
    decreases |cs|
  {
    if cs != [] {
      var n := |cs| - 1;
      var before := Paint(g, h, tiles, mask, cs[..n], ks[..n]);
      assert Paint(g, h, tiles, mask, cs, ks) == BlendCell(before, h, tiles[ks[n]], mask, cs[n].0, cs[n].1);
      CellIsCellRect(cs[n].0, cs[n].1);
      CellOfPixel(x, y, TileSide, TileSide, cs[n].0, cs[n].1);
      PaintUnlisted(g, h, tiles, mask, cs[..n], ks[..n], x, y);
    }
  }

  /**
   * A pixel whose cell was painted once, as the i-th cell, holds the blend
   * of its original value with the pixel at the same offset of tile ks[i].
   */
  lemma {:induction false} PaintListed(g: Raster, h: nat, tiles: seq<Raster>, mask: seq<seq<int>>,
                                       cs: seq<(nat, nat)>, ks: seq<nat>, i: nat, x: nat, y: nat)
    requires IsImage(g, |g|, h) && AreTiles(tiles) && IsMask(mask)
    requires Placed(|g|, h, tiles, cs, ks)
    requires forall a, b :: 0 <= a < b < |cs| ==> cs[a] != cs[b]
    requires x < |g| && y < h
    requires i < |cs| && cs[i] == (y / TileSide, x / TileSide)
    ensures Paint(g, h, tiles, mask, cs, ks)[x][y]
         == Mix(g[x][y], tiles[ks[i]][x % TileSide][y % TileSide], mask[x % TileSide][y % TileSide])
    decreases |cs|
  {
    var n := |cs| - 1;
    if i == n {
      PaintLast(g, h, tiles, mask, cs, ks, x, y);
    } else {
      var before := Paint(g, h, tiles, mask, cs[..n], ks[..n]);
      assert Paint(g, h, tiles, mask, cs, ks) == BlendCell(before, h, tiles[ks[n]], mask, cs[n].0, cs[n].1);
      CellIsCellRect(cs[n].0, cs[n].1);
      CellOfPixel(x, y, TileSide, TileSide, cs[n].0, cs[n].1);
      PaintListed(g, h, tiles, mask, cs[..n], ks[..n], i, x, y);
    }
  }

  /** The last painted cell: its pixels were untouched before, then blended once. */
  lemma PaintLast(g: Raster, h: nat, tiles: seq<Raster>, mask: seq<seq<int>>,
                  cs: seq<(nat, nat)>, ks: seq<nat>, x: nat, y: nat)
    requires IsImage(g, |g|, h) && AreTiles(tiles) && IsMask(mask)
    requires Placed(|g|, h, tiles, cs, ks)
    requires forall a, b :: 0 <= a < b < |cs| ==> cs[a] != cs[b]
    requires x < |g| && y < h
    requires cs != [] && cs[|cs| - 1] == (y / TileSide, x / TileSide)
    ensures Paint(g, h, tiles, mask, cs, ks)[x][y]
         == Mix(g[x][y], tiles[ks[|cs| - 1]][x % TileSide][y % TileSide], mask[x % TileSide][y % TileSide])
  {
    var n := |cs| - 1;
    var before := Paint(g, h, tiles, mask, cs[..n], ks[..n]);
    assert Paint(g, h, tiles, mask, cs, ks) == BlendCell(before, h, tiles[ks[n]], mask, cs[n].0, cs[n].1);
    CellIsCellRect(cs[n].0, cs[n].1);
    CellOfPixel(x, y, TileSide, TileSide, cs[n].0, cs[n].1);
    OffsetInCell(x, cs[n].1);
    OffsetInCell(y, cs[n].0);
    PaintUnlisted(g, h, tiles, mask, cs[..n], ks[..n], x, y);
  }

  /** A cell that was not painted keeps its pixels, so ProcessCell reads the original colour there. */
  lemma UnpaintedCell(g: Raster, h: nat, tiles: seq<Raster>, mask: seq<seq<int>>,
                      cs: seq<(nat, nat)>, ks: seq<nat>, r: nat, c: nat)
    requires IsImage(g, |g|, h) && AreTiles(tiles) && IsMask(mask)
    requires Placed(|g|, h, tiles, cs, ks)
    requires forall i, j :: 0 <= i < j < |cs| ==> cs[i] != cs[j]
    requires Within(Cell(r, c), |g|, h) && forall i :: 0 <= i < |cs| ==> cs[i] != (r, c)
    ensures Crop(Paint(g, h, tiles, mask, cs, ks), Band(c), Band(r), TileSide, TileSide)
         == Crop(g, Band(c), Band(r), TileSide, TileSide)
  {
    var out := Paint(g, h, tiles, mask, cs, ks);
    var x0, y0 := Band(c), Band(r);
    forall x, y | x0 <= x < x0 + TileSide && y0 <= y < y0 + TileSide
      ensures out[x][y] == g[x][y]
    {
      CellIsCellRect(r, c);
      CellOfPixel(x, y, TileSide, TileSide, r, c);
      PaintUnlisted(g, h, tiles, mask, cs, ks, x, y);
    }
    var a := Crop(out, x0, y0, TileSide, TileSide);
    var b := Crop(g, x0, y0, TileSide, TileSide);
    forall i | 0 <= i < TileSide
      ensures a[i] == b[i]
    {
    }
  }

  /** The colour FindBestMatch is asked for at cell (r, c): the channel sums of the cell's pixels. */
  function CellColour(g: Raster, h: nat, r: nat, c: nat): Bgr
    requires IsImage(g, |g|, h) && Within(Cell(r, c), |g|, h)
  {
    PixelSum(Crop(g, Band(c), Band(r), TileSide, TileSide))
  }

  /** The colours of the listed cells of g, in list order. */
  function Colours(g: Raster, h: nat, cs: seq<(nat, nat)>): (qs: seq<Bgr>)
    requires IsImage(g, |g|, h) && forall i :: 0 <= i < |cs| ==> Within(Cell(cs[i].0, cs[i].1), |g|, h)
    ensures |qs| == |cs| && forall i :: 0 <= i < |cs| ==> qs[i] == CellColour(g, h, cs[i].0, cs[i].1)
  {
    seq(|cs|, i requires 0 <= i < |cs| => CellColour(g, h, cs[i].0, cs[i].1))
  }

  /** The mean colours of the tiles, as channel sums, in database order. */
  function TileColours(tiles: seq<Raster>): (avgs: seq<Bgr>)
    ensures |avgs| == |tiles| && forall i :: 0 <= i < |tiles| ==> avgs[i] == PixelSum(tiles[i])
  {
    seq(|tiles|, i requires 0 <= i < |tiles| => PixelSum(tiles[i]))
  }

  /** Painting one more cell blends it over the canvas painted so far. */
  lemma PaintStep(g: Raster, h: nat, tiles: seq<Raster>, mask: seq<seq<int>>,
                  cs: seq<(nat, nat)>, ks: seq<nat>, t: nat, k: nat)
    requires IsImage(g, |g|, h) && AreTiles(tiles) && IsMask(mask)
    requires t < |cs| && Placed(|g|, h, tiles, cs[..t], ks)
    requires k < |tiles| && Within(Cell(cs[t].0, cs[t].1), |g|, h)
    ensures Placed(|g|, h, tiles, cs[..t + 1], ks + [k])
    ensures Paint(g, h, tiles, mask, cs[..t + 1], ks + [k])
         == BlendCell(Paint(g, h, tiles, mask, cs[..t], ks), h, tiles[k], mask, cs[t].0, cs[t].1)
  {
    assert cs[..t + 1][..t] == cs[..t];
    assert (ks + [k])[..t] == ks;
  }

  /** Selecting for one more cell extends the run by that cell's choice. */
  lemma RunStep(averages: seq<Bgr>, c: Cycle, g: Raster, h: nat, cs: seq<(nat, nat)>, t: nat)
    requires |averages| == |c.used| > 0 && Consistent(c)
    requires IsImage(g, |g|, h) && forall i :: 0 <= i < |cs| ==> Within(Cell(cs[i].0, cs[i].1), |g|, h)
    requires t < |cs|
    ensures var prev := Run(averages, c, Colours(g, h, cs[..t]));
      var step := Select(averages, prev.1, CellColour(g, h, cs[t].0, cs[t].1));
      Run(averages, c, Colours(g, h, cs[..t + 1])) == (prev.0 + [step.0], step.1)
  {
    var qs := Colours(g, h, cs[..t + 1]);
    assert qs[..t] == Colours(g, h, cs[..t]);
  }

  /**
   * What a scan works with: canvas g of height h, tiles with their colours
   * avgs, the mask, the starting selection state c0 and the cells cs to
   * visit, each inside the canvas and none twice.
   */
  ghost predicate ScanSetup(g: Raster, h: nat, tiles: seq<Raster>, mask: seq<seq<int>>, avgs: seq<Bgr>, c0: Cycle,
                            cs: seq<(nat, nat)>)
  {
    && IsImage(g, |g|, h) && AreTiles(tiles) && IsMask(mask)
    && |avgs| == |c0.used| > 0 && Consistent(c0) && |tiles| == |avgs|
    && (forall i :: 0 <= i < |cs| ==> Within(Cell(cs[i].0, cs[i].1), |g|, h))
    && (forall i, j :: 0 <= i < j < |cs| ==> cs[i] != cs[j])
  }

  /**
   * The scan after the first t cells of cs, starting from canvas g (of
   * height h) and selection state c0: the canvas img is g painted with the
   * choices ks, and the selection state st is where the run over those
   * cells' colours leaves c0. The facts about the visited prefix are
   * stated for every `done` equal to cs[..t], so that a proof that only
   * carries a scan along (Work's loops) does not unfold them; ScannedDone
   * takes them out.
   */
  ghost predicate Scanned(g: Raster, h: nat, tiles: seq<Raster>, mask: seq<seq<int>>, avgs: seq<Bgr>, c0: Cycle,
                          cs: seq<(nat, nat)>, t: nat, ks: seq<nat>, st: Cycle, img: Raster)
  {
    && ScanSetup(g, h, tiles, mask, avgs, c0, cs)
    && t <= |cs| && |ks| == t && (forall i :: 0 <= i < t ==> ks[i] < |tiles|)
    && |st.used| == |avgs| && Consistent(st) && IsImage(img, |g|, h)
    && forall done | done == cs[..t] ::
      && (ks, st) == Run(avgs, c0, Colours(g, h, done))
      && img == Paint(g, h, tiles, mask, done, ks)
  }

  /** What Scanned records about the cells already done. */
  lemma ScannedDone(g: Raster, h: nat, tiles: seq<Raster>, mask: seq<seq<int>>, avgs: seq<Bgr>, c0: Cycle,
                    cs: seq<(nat, nat)>, t: nat, ks: seq<nat>, st: Cycle, img: Raster)
    requires Scanned(g, h, tiles, mask, avgs, c0, cs, t, ks, st, img)
    ensures Placed(|g|, h, tiles, cs[..t], ks)
    ensures (ks, st) == Run(avgs, c0, Colours(g, h, cs[..t]))
    ensures img == Paint(g, h, tiles, mask, cs[..t], ks)
  {
    var done := cs[..t];
    assert Placed(|g|, h, tiles, done, ks);
  }

  /**
   * One step of the scan: ProcessCell on the next cell reads that cell's
   * original colour (no earlier step wrote it), selects for it and blends
   * the chosen tile over it, which extends both the run and the painting.
   */
  lemma ScanAdvance(g: Raster, h: nat, tiles: seq<Raster>, mask: seq<seq<int>>, avgs: seq<Bgr>, c0: Cycle,
                    cs: seq<(nat, nat)>, t: nat, ks: seq<nat>, st: Cycle, img: Raster,
                    r: nat, c: nat, k: nat, st': Cycle, img': Raster)
    requires Scanned(g, h, tiles, mask, avgs, c0, cs, t, ks, st, img) && t < |cs| && cs[t] == (r, c)
    requires (k, st') == Select(avgs, st, CellColour(img, h, r, c))
    requires img' == BlendCell(img, h, tiles[k], mask, r, c)
    ensures Scanned(g, h, tiles, mask, avgs, c0, cs, t + 1, ks + [k], st', img')
  {
    var done, done' := cs[..t], cs[..t + 1];
    ScannedDone(g, h, tiles, mask, avgs, c0, cs, t, ks, st, img);
    RunAdvance(g, h, tiles, mask, avgs, c0, cs, t, ks, st, img, r, c, k, st');
    PaintStep(g, h, tiles, mask, cs, ks, t, k);
    assert (ks + [k], st') == Run(avgs, c0, Colours(g, h, done'));
    assert img' == Paint(g, h, tiles, mask, done', ks + [k]);
  }

  /** The selection half of ScanAdvance: the cell's colour on the painted canvas is its original colour. */
  lemma RunAdvance(g: Raster, h: nat, tiles: seq<Raster>, mask: seq<seq<int>>, avgs: seq<Bgr>, c0: Cycle,
                   cs: seq<(nat, nat)>, t: nat, ks: seq<nat>, st: Cycle, img: Raster,
                   r: nat, c: nat, k: nat, st': Cycle)
    requires ScanSetup(g, h, tiles, mask, avgs, c0, cs) && t < |cs| && cs[t] == (r, c)
    requires Placed(|g|, h, tiles, cs[..t], ks)
    requires (ks, st) == Run(avgs, c0, Colours(g, h, cs[..t])) && img == Paint(g, h, tiles, mask, cs[..t], ks)
    requires (k, st') == Select(avgs, st, CellColour(img, h, r, c))
    ensures (ks + [k], st') == Run(avgs, c0, Colours(g, h, cs[..t + 1]))
  {
    PaintedCellColour(g, h, tiles, mask, cs, t, ks, r, c);
    RunStep(avgs, c0, g, h, cs, t);
  }

  /** No cell before cs[t] covers it, so its colour on the canvas painted so far is its original colour. */
  lemma PaintedCellColour(g: Raster, h: nat, tiles: seq<Raster>, mask: seq<seq<int>>,
                          cs: seq<(nat, nat)>, t: nat, ks: seq<nat>, r: nat, c: nat)
    requires IsImage(g, |g|, h) && AreTiles(tiles) && IsMask(mask)
    requires forall i :: 0 <= i < |cs| ==> Within(Cell(cs[i].0, cs[i].1), |g|, h)
    requires forall i, j :: 0 <= i < j < |cs| ==> cs[i] != cs[j]
    requires t < |cs| && cs[t] == (r, c) && Placed(|g|, h, tiles, cs[..t], ks)
    ensures CellColour(Paint(g, h, tiles, mask, cs[..t], ks), h, r, c) == CellColour(g, h, r, c)
  {
    var done := cs[..t];
    assert forall i :: 0 <= i < |done| ==> done[i] == cs[i];
    UnpaintedCell(g, h, tiles, mask, done, ks, r, c);
  }

  /**
   * Before any cell is processed the scan has chosen nothing and the canvas
   * is untouched. A canvas that holds the rows x cols grid is a scan setup
   * over the grid's cells: every cell lies inside the canvas and none is
   * listed twice.
   */
  lemma GridScanStart(g: Raster, h: nat, tiles: seq<Raster>, mask: seq<seq<int>>, avgs: seq<Bgr>, c0: Cycle,
                      rows: nat, cols: nat)
    requires IsImage(g, |g|, h) && AreTiles(tiles) && IsMask(mask)
    requires |avgs| == |c0.used| > 0 && Consistent(c0) && |tiles| == |avgs|
    requires HoldsGrid(|g|, h, rows, cols)
    ensures Scanned(g, h, tiles, mask, avgs, c0, Cells(rows, cols), Before(cols, 0, 0), [], c0, g)
  {
    CellsWithin(rows, cols, |g|, h);
    CellsDistinct(rows, cols);
    assert Cells(rows, cols)[..0] == [];
  }

  /**
   * Work's inner loop body on cell (r, c): the scan of the cells before
   * (r, c) becomes the scan of the cells up to and including it.
   */
  lemma GridScanCell(g: Raster, h: nat, tiles: seq<Raster>, mask: seq<seq<int>>, avgs: seq<Bgr>, c0: Cycle,
                     rows: nat, cols: nat, r: nat, c: nat, ks: seq<nat>, st: Cycle, img: Raster,
                     k: nat, st': Cycle, img': Raster)
    requires r < rows && c < cols
    requires Scanned(g, h, tiles, mask, avgs, c0, Cells(rows, cols), Before(cols, r, c), ks, st, img)
    requires Within(Cell(r, c), |g|, h)
    requires (k, st') == Select(avgs, st, CellColour(img, h, r, c))
    requires img' == BlendCell(img, h, tiles[k], mask, r, c)
    ensures Scanned(g, h, tiles, mask, avgs, c0, Cells(rows, cols), Before(cols, r, c + 1), ks + [k], st', img')
  {
    CellBefore(rows, cols, r, c);
    ScanAdvance(g, h, tiles, mask, avgs, c0, Cells(rows, cols), Before(cols, r, c), ks, st, img, r, c, k, st', img');
  }

  /**
   * After the last row the scan has visited the whole grid: the selection
   * state is where the run over the original cell colours ends, and the
   * canvas is the composite of that run's choices.
   */
  lemma GridScanDone(g: Raster, h: nat, tiles: seq<Raster>, mask: seq<seq<int>>, avgs: seq<Bgr>, c0: Cycle,
                     rows: nat, cols: nat, ks: seq<nat>, st: Cycle, img: Raster)
    requires HoldsGrid(|g|, h, rows, cols)
    requires Scanned(g, h, tiles, mask, avgs, c0, Cells(rows, cols), Before(cols, rows, 0), ks, st, img)
    ensures var run := Run(avgs, c0, GridColours(g, h, rows, cols));
      && st == run.1
      && img == Composite(g, h, tiles, mask, rows, cols, run.0)
  {
    var cs := Cells(rows, cols);
    CellsBeforeEnd(rows, cols);
    assert cs[..|cs|] == cs;
  }

  /** The colours of all cells of the rows x cols grid, in the order Work visits them. */
  function GridColours(g: Raster, h: nat, rows: nat, cols: nat): (qs: seq<Bgr>)
    requires IsImage(g, |g|, h) && HoldsGrid(|g|, h, rows, cols)
    ensures |qs| == |Cells(rows, cols)|
  {
    CellsWithin(rows, cols, |g|, h);
    assert forall i :: 0 <= i < |Cells(rows, cols)| ==> Within(Cell(Cells(rows, cols)[i].0, Cells(rows, cols)[i].1), |g|, h);
    Colours(g, h, Cells(rows, cols))
  }

  /** The canvas Work leaves: every cell of the rows x cols grid painted, in row-major order. */
  function Composite(g: Raster, h: nat, tiles: seq<Raster>, mask: seq<seq<int>>, rows: nat, cols: nat, ks: seq<nat>): (out: Raster)
    requires IsImage(g, |g|, h) && AreTiles(tiles) && IsMask(mask)
    requires HoldsGrid(|g|, h, rows, cols)
    requires |ks| == |Cells(rows, cols)| && forall i :: 0 <= i < |ks| ==> ks[i] < |tiles|
    ensures IsImage(out, |g|, h)
  {
    CellsWithin(rows, cols, |g|, h);
    assert forall i :: 0 <= i < |Cells(rows, cols)| ==> Within(Cell(Cells(rows, cols)[i].0, Cells(rows, cols)[i].1), |g|, h);
    Paint(g, h, tiles, mask, Cells(rows, cols), ks)
  }

  /** The row-major index of the cell that holds pixel (x, y) of the crop. */
  function CellIndex(rows: nat, cols: nat, x: nat, y: nat): (t: nat)
    requires Contains(CropRect(rows, cols, TileSide, TileSide), x, y)
    ensures t < rows * cols && t < |Cells(rows, cols)|
  {
    CellsIndex(rows, cols);
    CropIsUnionOfCells(rows, cols, TileSide, TileSide, x, y);
    RowMajor(y / TileSide, x / TileSide, rows, cols)
  }

  /**
   * The picture Work saves, pixel by pixel: a pixel inside the crop holds
   * the blend of its original value with the pixel at the same offset of
   * the tile chosen for its cell; a pixel outside the crop keeps its
   * original value.
   */
  lemma MosaicPixel(g: Raster, h: nat, tiles: seq<Raster>, mask: seq<seq<int>>,
                    rows: nat, cols: nat, ks: seq<nat>, x: nat, y: nat)
    requires IsImage(g, |g|, h) && AreTiles(tiles) && IsMask(mask)
    requires HoldsGrid(|g|, h, rows, cols)
    requires |ks| == |Cells(rows, cols)| && forall i :: 0 <= i < |ks| ==> ks[i] < |tiles|
    requires x < |g| && y < h
    ensures var out := Composite(g, h, tiles, mask, rows, cols, ks);
      if Contains(CropRect(rows, cols, TileSide, TileSide), x, y) then
        out[x][y] == Mix(g[x][y], tiles[ks[CellIndex(rows, cols, x, y)]][x % TileSide][y % TileSide],
                         mask[x % TileSide][y % TileSide])
      else
        out[x][y] == g[x][y]
  {
    CellsIndex(rows, cols);
    CellsWithin(rows, cols, |g|, h);
    CellsDistinct(rows, cols);
    CropIsUnionOfCells(rows, cols, TileSide, TileSide, x, y);
    var cs := Cells(rows, cols);
    if Contains(CropRect(rows, cols, TileSide, TileSide), x, y) {
      CellAt(rows, cols, y / TileSide, x / TileSide);
      PaintListed(g, h, tiles, mask, cs, ks, CellIndex(rows, cols, x, y), x, y);
    } else {
      PaintUnlisted(g, h, tiles, mask, cs, ks, x, y);
    }
  }
}
