/**
 * Geometry of the mosaic grid: the canvas is cut into rows x cols cells of
 * sizex x sizey pixels, scanned in row-major order, and the saved result is
 * the region those cells cover.
 */
module Grid {
  import opened Selection

  /** A System.Drawing.Rectangle: corner (x, y), then width and height. */
  datatype Rect = Rect(x: int, y: int, width: int, height: int)

  /** The rectangle lies inside a w x h image. */
  predicate Within(rect: Rect, w: int, h: int)
  {
    0 <= rect.x && 0 <= rect.y && 0 <= rect.width && 0 <= rect.height
    && rect.x + rect.width <= w && rect.y + rect.height <= h
  }

  /** Pixel (px, py) lies in the rectangle. */
  predicate Contains(rect: Rect, px: int, py: int)
  {
    rect.x <= px < rect.x + rect.width && rect.y <= py < rect.y + rect.height
  }

  /** The rectangle ProcessCell(r, c) copies from and writes back to. */
  function CellRect(r: int, c: int, sizex: int, sizey: int): Rect
  {
    Rect(c * sizex, r * sizey, sizex, sizey)
  }

  /**
   * rows = height / sizey and cols = width / sizex, as computed by Work:
   * the largest numbers of whole cells that fit. A zero tile size (an empty
   * database) is a division by zero in the source, here None.
   */
  function GridSize(width: nat, height: nat, sizex: nat, sizey: nat): (r: Option<(nat, nat)>)
    ensures r.None? <==> sizex == 0 || sizey == 0
    ensures r.Some? ==>
      var (rows, cols) := r.value;
      rows * sizey <= height < (rows + 1) * sizey && cols * sizex <= width < (cols + 1) * sizex
  {
    if sizey == 0 || sizex == 0 then None
    else
      var rows := height / sizey;
      var cols := width / sizex;
      DivBounds(height, sizey);
      DivBounds(width, sizex);
      Some((rows, cols))
  }

  lemma DivBounds(n: nat, d: nat)
    requires d > 0
    ensures (n / d) * d <= n < (n / d + 1) * d
  {
    assert n == (n / d) * d + n % d;
  }

  lemma MulMonotone(a: int, b: int, k: int)
    requires a <= b && k >= 0
    ensures a * k <= b * k
  {
    assert b * k - a * k == (b - a) * k;
  }

  /** Every cell of the grid lies inside the canvas. */
  lemma CellWithinCanvas(width: nat, height: nat, sizex: nat, sizey: nat, r: int, c: int)
    requires sizex > 0 && sizey > 0
    requires 0 <= r < height / sizey && 0 <= c < width / sizex
    ensures Within(CellRect(r, c, sizex, sizey), width, height)
  {
    DivBounds(height, sizey);
    DivBounds(width, sizex);
    MulMonotone(r + 1, height / sizey, sizey);
    MulMonotone(c + 1, width / sizex, sizex);
    MulMonotone(0, r, sizey);
    MulMonotone(0, c, sizex);
  }

  /** The cell of a pixel: (py / sizey, px / sizex) is the one cell that contains it. */
  lemma CellOfPixel(px: nat, py: nat, sizex: nat, sizey: nat, r: int, c: int)
    requires sizex > 0 && sizey > 0
    ensures Contains(CellRect(py / sizey, px / sizex, sizex, sizey), px, py)
    ensures Contains(CellRect(r, c, sizex, sizey), px, py) <==> r == py / sizey && c == px / sizex
  {
    DivBounds(px, sizex);
    DivBounds(py, sizey);
    if Contains(CellRect(r, c, sizex, sizey), px, py) {
      CoordinateOfCell(px, sizex, c);
      CoordinateOfCell(py, sizey, r);
    }
  }

  /** A coordinate inside [k * size, (k + 1) * size) belongs to band k. */
  lemma CoordinateOfCell(p: nat, size: nat, k: int)
    requires size > 0 && k * size <= p < k * size + size
    ensures k == p / size
  {
    DivBounds(p, size);
    var q := p / size;
    if k < q {
      MulMonotone(k + 1, q, size);
    } else if k > q {
      MulMonotone(q + 1, k, size);
    }
  }

  /** Two different cells share no pixel, so writing one cell leaves every other cell alone. */
  lemma CellsDisjoint(sizex: nat, sizey: nat, r1: int, c1: int, r2: int, c2: int, px: int, py: int)
    requires sizex > 0 && sizey > 0 && (r1, c1) != (r2, c2)
    ensures !(Contains(CellRect(r1, c1, sizex, sizey), px, py) && Contains(CellRect(r2, c2, sizex, sizey), px, py))
  {
    if Contains(CellRect(r1, c1, sizex, sizey), px, py) && Contains(CellRect(r2, c2, sizex, sizey), px, py) {
      if r1 != r2 {
        BandsDisjoint(sizey, r1, r2, py);
      } else {
        BandsDisjoint(sizex, c1, c2, px);
      }
    }
  }

  lemma BandsDisjoint(size: nat, k1: int, k2: int, p: int)
    requires size > 0 && k1 != k2
    ensures !(k1 * size <= p < k1 * size + size && k2 * size <= p < k2 * size + size)
  {
    if k1 < k2 {
      MulMonotone(k1 + 1, k2, size);
    } else {
      MulMonotone(k2 + 1, k1, size);
    }
  }

  /** The region Work saves, (0, 0, cols * sizex, rows * sizey). */
  function CropRect(rows: nat, cols: nat, sizex: nat, sizey: nat): Rect
  {
    Rect(0, 0, cols * sizex, rows * sizey)
  }

  /** The saved region fits in the canvas. */
  lemma CropWithinCanvas(width: nat, height: nat, sizex: nat, sizey: nat)
    requires sizex > 0 && sizey > 0
    ensures Within(CropRect(height / sizey, width / sizex, sizex, sizey), width, height)
  {
    var rows, cols := height / sizey, width / sizex;
    DivBounds(height, sizey);
    DivBounds(width, sizex);
    MulMonotone(0, rows, sizey);
    MulMonotone(0, cols, sizex);
    assert 0 <= cols * sizex <= width && 0 <= rows * sizey <= height;
  }

  /** Rectangle.Empty, the all-zero rectangle; an image takes it as "no ROI". */
  const EmptyRect := Rect(0, 0, 0, 0)

  /**
   * The region a w x h image covers after its ROI is set to rect: the empty
   * rectangle clears the ROI, so the whole image is covered again.
   */
  function Roi(rect: Rect, w: nat, h: nat): (r: Rect)
    ensures Within(rect, w, h) ==> Within(r, w, h)
    ensures r == EmptyRect ==> w == 0 && h == 0
  {
    if rect == EmptyRect then Rect(0, 0, w, h) else rect
  }

  /**
   * The region Work saves: the whole-cell crop, except on a canvas with no
   * whole cell in either direction, where the crop is the empty rectangle,
   * the ROI is cleared and the whole canvas is saved.
   */
  lemma SavedRegion(width: nat, height: nat, sizex: nat, sizey: nat)
    requires sizex > 0 && sizey > 0
    ensures var crop := CropRect(height / sizey, width / sizex, sizex, sizey);
      && Within(Roi(crop, width, height), width, height)
      && (width < sizex && height < sizey ==> Roi(crop, width, height) == Rect(0, 0, width, height))
      && (sizex <= width || sizey <= height ==> Roi(crop, width, height) == crop)
  {
    var rows, cols := height / sizey, width / sizex;
    CropWithinCanvas(width, height, sizex, sizey);
    if sizex <= width {
      assert cols >= 1;
      MulMonotone(1, cols, sizex);
    }
    if sizey <= height {
      assert rows >= 1;
      MulMonotone(1, rows, sizey);
    }
  }

  /** The saved pixels are exactly the pixels of the cells: a pixel is in the crop iff its cell is in the grid. */
  lemma CropIsUnionOfCells(rows: nat, cols: nat, sizex: nat, sizey: nat, px: nat, py: nat)
    requires sizex > 0 && sizey > 0
    ensures Contains(CropRect(rows, cols, sizex, sizey), px, py) <==> py / sizey < rows && px / sizex < cols
  {
    BandBelowLimit(py, sizey, rows);
    BandBelowLimit(px, sizex, cols);
  }

  /** A coordinate is below n whole bands exactly when its band index is below n. */
  lemma BandBelowLimit(p: nat, size: nat, n: nat)
    requires size > 0
    ensures p < n * size <==> p / size < n
  {
    DivBounds(p, size);
    if p / size < n {
      MulMonotone(p / size + 1, n, size);
    } else {
      MulMonotone(n, p / size, size);
    }
  }

  /**
   * Work visits cell (r, c) as the (r * cols + c)-th cell: the index is
   * below rows * cols for every cell of the grid.
   */
  function RowMajor(r: nat, c: nat, rows: nat, cols: nat): (t: nat)
    requires r < rows && c < cols
    ensures t < rows * cols
  {
    MulMonotone(r + 1, rows, cols);
    r * cols + c
  }

  /** Distinct cells have distinct row-major indices: the index determines row and column. */
  lemma RowMajorUnique(r1: nat, c1: nat, r2: nat, c2: nat, cols: nat)
    requires c1 < cols && c2 < cols && r1 * cols + c1 == r2 * cols + c2
    ensures r1 == r2 && c1 == c2
  {
    if r1 < r2 {
      MulMonotone(r1 + 1, r2, cols);
    } else if r2 < r1 {
      MulMonotone(r2 + 1, r1, cols);
    }
  }

  /** A cell of some column comes before the first rows rows exactly when its row is one of them. */
  lemma RowMajorBelow(r: nat, c: nat, rows: nat, cols: nat)
    requires c < cols
    ensures r * cols + c < rows * cols <==> r < rows
  {
    if r < rows {
      MulMonotone(r + 1, rows, cols);
    } else {
      MulMonotone(rows, r, cols);
    }
  }

  /**
   * A 1000 x 700 canvas with 60 x 60 tiles has 11 rows and 16 columns and
   * saves 960 x 660 pixels; a 50 x 50 canvas has no whole cell and is saved whole.
   */
  lemma CropOfExampleCanvas()
    ensures GridSize(1000, 700, 60, 60) == Some((11, 16))
    ensures Roi(CropRect(11, 16, 60, 60), 1000, 700) == Rect(0, 0, 960, 660)
    ensures GridSize(50, 50, 60, 60) == Some((0, 0))
    ensures Roi(CropRect(0, 0, 60, 60), 50, 50) == Rect(0, 0, 50, 50)
  {
  }
}
