/**
 * DatabaseMatcher: the record table, the canvas it rewrites cell by cell,
 * and the operations FindBestMatch, Blend, ProcessCell, Load and Work.
 *
 * Images are two-dimensional arrays indexed [x, y], as Blend indexes them;
 * every tile and every cell is TileSide x TileSide, so the orientation of
 * the indexer does not change any result.
 */
module Matcher {
  import opened Selection
  import opened Pixels
  import opened Grid
  import opened Mosaic

  /** What Work ends with: the saved region of the canvas, or the division by zero an empty database causes. */
  datatype Outcome = DivideByZero | Saved(region: Rect)

  /**
   * A database entry: its resized image, its mean colour (as channel sums)
   * and its flag for the current cycle. The image is never modified after
   * Load, so the record holds its pixels as a value.
   */
  class Record {
    const image: Raster
    const average: Bgr
    var used: bool

    constructor (image: Raster, average: Bgr)
      ensures this.image == image && this.average == average && !used
    {
      this.image := image;
      this.average := average;
      used := false;
    }
  }

  /** The records' flags, in list order. */
  ghost function FlagsOf(rs: seq<Record>): (flags: seq<bool>)
    reads rs
    ensures |flags| == |rs| && forall i :: 0 <= i < |rs| ==> flags[i] == rs[i].used
  {
    if rs == [] then [] else [rs[0].used] + FlagsOf(rs[1..])
  }

  /** Appending a record appends its flag. */
  lemma FlagsOfAppend(rs: seq<Record>, r: Record)
    ensures FlagsOf(rs + [r]) == FlagsOf(rs) + [r.used]
  {
    assert FlagsOf(rs + [r]) == FlagsOf(rs) + [r.used];
  }

  /** Records none of which is flagged have the flags of a fresh cycle. */
  lemma FlagsOfNoneUsed(rs: seq<Record>)
    requires forall j :: 0 <= j < |rs| ==> !rs[j].used
    ensures FlagsOf(rs) == Fresh(|rs|).used
  {
    assert FlagsOf(rs) == Fresh(|rs|).used;
  }

  /**
   * Write src over the rectangle of dst at (x0, y0): setting the ROI,
   * CopyTo and clearing the ROI. Pixels outside the rectangle keep their value.
   */
  method PasteRegion(dst: array2<Bgr>, src: array2<Bgr>, x0: nat, y0: nat)
    requires x0 + src.Length0 <= dst.Length0 && y0 + src.Length1 <= dst.Length1 && src != dst
    modifies dst
    ensures Snapshot(dst) == Overlay(old(Snapshot(dst)), dst.Length1, Snapshot(src), src.Length0, src.Length1, x0, y0)
  {
    ghost var before := Snapshot(dst);
    forall x, y | x0 <= x < x0 + src.Length0 && y0 <= y < y0 + src.Length1 {
      dst[x, y] := src[x - x0, y - y0];
    }
    ghost var expected := Overlay(before, dst.Length1, Snapshot(src), src.Length0, src.Length1, x0, y0);
    forall x | 0 <= x < dst.Length0
      ensures Snapshot(dst)[x] == expected[x]
    {
    }
  }

  /** Clear the flag of every record. */
  method ClearFlags(rs: seq<Record>)
    modifies rs
    ensures FlagsOf(rs) == Fresh(|rs|).used
  {
    for i := 0 to |rs|
      invariant forall j :: 0 <= j < i ==> !rs[j].used
    {
      rs[i].used := false;
    }
    FlagsOfNoneUsed(rs);
  }

  class DatabaseMatcher {
    var records: seq<Record>
    var image: array2<Bgr>
    /** The blend mask, built once by Work and only read afterwards. */
    var mask: seq<seq<int>>
    var rows: nat
    var cols: nat
    var sizex: nat
    var sizey: nat
    var used: int

    /** The selection state: every record's flag and the counter m_used. */
    ghost function State(): Cycle
      reads this`records, this`used, records
    {
      Cycle(FlagsOf(records), used)
    }

    /** The records' mean colours, in list order. */
    function Averages(): (avgs: seq<Bgr>)
      reads this`records
      ensures |avgs| == |records| && forall i :: 0 <= i < |records| ==> avgs[i] == records[i].average
    {
      var rs := records;
      seq(|rs|, i requires 0 <= i < |rs| => rs[i].average)
    }

    /** The records' images, in list order. */
    function Tiles(): (tiles: seq<Raster>)
      reads this`records
      ensures |tiles| == |records| && forall i :: 0 <= i < |records| ==> tiles[i] == records[i].image
    {
      var rs := records;
      seq(|rs|, i requires 0 <= i < |rs| => rs[i].image)
    }

    /**
     * The object invariant: the records are distinct objects, the counter
     * counts the flagged records, every tile is sizex x sizey, and once a
     * record is loaded the sizes are those of the resized tiles.
     */
    ghost predicate Valid()
      reads this`records, this`used, this`sizex, this`sizey, records
    {
      && (forall i, j :: 0 <= i < j < |records| ==> records[i] != records[j])
      && Consistent(State())
      && (forall i :: 0 <= i < |records| ==> IsImage(records[i].image, sizex, sizey))
      && (|records| > 0 ==> sizex == TileSide && sizey == TileSide)
    }

    /** The state in which Work scans the cells: records loaded, mask built, grid computed. */
    ghost predicate Ready()
      reads this, records
    {
      && Valid()
      && |records| > 0
      && IsMask(mask)
      && WholeBands(image.Length1, rows) && WholeBands(image.Length0, cols)
    }

    /** No record, no canvas yet, tile size zero. */
    constructor ()
      ensures Valid() && records == [] && sizex == 0 && sizey == 0
    {
      records := [];
      image := new Bgr[0, 0];
      mask := [];
      rows, cols, sizex, sizey, used := 0, 0, 0, 0, 0;
    }

    /**
     * Load: append an unused record for a database image, given already
     * decoded and resized to 60 x 60; its average is the image's mean
     * colour, and the tile size becomes the record's size.
     */
    method Load(resized: Raster)
      requires Valid() && IsImage(resized, TileSide, TileSide)
      modifies this`records, this`sizex, this`sizey
      ensures Valid()
      ensures |records| == |old(records)| + 1 && records[..|old(records)|] == old(records)
      ensures fresh(records[|old(records)|])
      ensures records[|old(records)|].image == resized && records[|old(records)|].average == PixelSum(resized)
      ensures State() == Cycle(old(State()).used + [false], old(used))
      ensures sizex == TileSide && sizey == TileSide
      ensures image == old(image) && mask == old(mask) && rows == old(rows) && cols == old(cols)
    {
      ghost var before := records;
      ghost var flags := FlagsOf(records);
      var record := new Record(resized, PixelSum(resized));
      assert FlagsOf(before) == flags;
      sizex := |resized|;
      sizey := |resized[0]|;
      records := records + [record];
      forall i, j | 0 <= i < j < |records| ensures records[i] != records[j] {
        if j == |before| { assert records[i] == before[i]; }
      }
      forall i | 0 <= i < |records| ensures IsImage(records[i].image, sizex, sizey) {
        if i < |before| { assert records[i] == before[i]; }
      }
      FlagsOfAppend(before, record);
      CountAppendUnused(flags);
      assert State() == Cycle(flags + [false], used);
    }

    /**
     * FindBestMatch: the unused record nearest to color, the first one on a
     * tie, or null when every record is used. k is its position in the list.
     */
    method FindBestMatch(color: Bgr) returns (found: Record?, ghost k: int)
      ensures found == null <==> forall j :: 0 <= j < |records| ==> records[j].used
      ensures found == null ==> BestMatch(Averages(), FlagsOf(records), color) == None
      ensures found != null ==>
        && BestMatch(Averages(), FlagsOf(records), color) == Some(k)
        && 0 <= k < |records| && found == records[k] && !found.used
    {
      ghost var averages, flags := Averages(), FlagsOf(records);
      var best := 0;
      var record: Record? := null;
      k := -1;
      for i := 0 to |records|
        invariant record == null <==> Scan(averages, flags, color, i).None?
        invariant record != null ==>
          && Scan(averages, flags, color, i) == Some(k) && 0 <= k < i
          && record == records[k] && best == DistanceSq(records[k].average, color)
      {
        var current := records[i];
        if current.used {
          continue;
        }
        var distance := DistanceSq(current.average, color);
        if record == null || distance < best {
          record := current;
          best := distance;
          k := i;
        }
      }
      found := record;
    }

    /**
     * Blend: a new image of A's size, black except its top-left
     * sizex x sizey pixels, where each pixel mixes A and B by the mask M.
     */
    method Blend(A: Raster, B: Raster, M: seq<seq<int>>) returns (output: array2<Bgr>)
      requires |A| > 0 && IsImage(A, |A|, |A[0]|)
      requires sizex <= |A| && sizex <= |B| && sizex <= |M|
      requires sizey <= |A[0]| && forall x :: 0 <= x < sizex ==> sizey <= |B[x]| && sizey <= |M[x]|
      requires forall x, y :: 0 <= x < sizex && 0 <= y < sizey ==> 0 <= M[x][y] <= 255
      ensures fresh(output) && output.Length0 == |A| && output.Length1 == |A[0]|
      ensures Snapshot(output) == Blended(A, |A[0]|, B, M, sizex, sizey)
    {
      output := new Bgr[|A|, |A[0]|]((x, y) => Black);
      var x := 0;
      while x != sizex
        invariant 0 <= x <= sizex
        invariant forall i, j :: 0 <= i < output.Length0 && 0 <= j < output.Length1 ==>
          output[i, j] == if i < x && j < sizey then Mix(A[i][j], B[i][j], M[i][j]) else Black
      {
        var y := 0;
        while y != sizey
          invariant 0 <= y <= sizey
          invariant forall i, j :: 0 <= i < output.Length0 && 0 <= j < output.Length1 ==>
            output[i, j] == if (i < x && j < sizey) || (i == x && j < y) then Mix(A[i][j], B[i][j], M[i][j]) else Black
        {
          output[x, y] := Mix(A[x][y], B[x][y], M[x][y]);
          y := y + 1;
        }
        x := x + 1;
      }
      ghost var expected := Blended(A, |A[0]|, B, M, sizex, sizey);
      forall i | 0 <= i < output.Length0
        ensures Snapshot(output)[i] == expected[i]
      {
      }
    }

    /** The head of ProcessCell: once every record is used, clear all flags and the counter. */
    method StartCycleIfComplete()
      requires Valid()
      modifies this`used, records
      ensures Valid() && (old(Ready()) ==> Ready())
      ensures State() == StartCell(old(State()))
      ensures |records| > 0 ==> exists j :: 0 <= j < |records| && !records[j].used
    {
      if used == |records| {
        NewCycle();
      }
      if |records| > 0 {
        StartCellLeavesUnused(old(State()));
        ghost var j :| 0 <= j < |records| && !State().used[j];
        assert !records[j].used;
      }
    }

    /** The body of the reset: clear every record's flag and the counter. */
    method NewCycle()
      requires Valid()
      modifies this`used, records
      ensures Valid() && State() == Fresh(|records|)
    {
      used := 0;
      ClearFlags(records);
      assert State() == Fresh(|records|);
    }

    /**
     * ProcessCell(r, c): start a new cycle if every record is used, copy the
     * cell, find the unused record nearest to its mean colour, write the
     * masked blend of cell and tile back over the cell, then flag the record
     * and count it. k is the chosen record's position.
     */
    method ProcessCell(r: nat, c: nat) returns (ghost k: nat)
      requires Ready() && r < rows && c < cols
      modifies this`used, records, image
      ensures Ready() && Within(Cell(r, c), image.Length0, image.Length1)
      ensures k < |records|
      ensures (k, State()) == Select(Averages(), old(State()), old(CellColour(Snapshot(image), image.Length1, r, c)))
      ensures Snapshot(image) == BlendCell(old(Snapshot(image)), image.Length1, records[k].image, mask, r, c)
    {
      ghost var averages := Averages();
      CellInGrid(image.Length0, image.Length1, rows, cols, r, c);
      ghost var colour := CellColour(Snapshot(image), image.Length1, r, c);
      var patch, found, i := Pick(r, c);
      Place(r, c, patch, found, i);
      k := i;
      SelectTakesBestMatch(averages, old(State()), colour, k);
    }

    /**
     * The tail of ProcessCell: write the blend of the copied cell and the
     * found record's tile back over the cell, then flag the record and
     * count it.
     */
    method Place(r: nat, c: nat, patch: Raster, found: Record, ghost k: nat)
      requires Ready() && Within(Cell(r, c), image.Length0, image.Length1)
      requires patch == Crop(Snapshot(image), Band(c), Band(r), TileSide, TileSide)
      requires k < |records| && found == records[k] && !found.used
      modifies found, this`used, image
      ensures Ready()
      ensures State() == Cycle(old(State()).used[k := true], old(State()).count + 1)
      ensures Snapshot(image) == BlendCell(old(Snapshot(image)), image.Length1, found.image, mask, r, c)
    {
      WriteCell(r, c, patch, found.image);
      Flag(found, k);
    }

    /**
     * The head of ProcessCell: start a new cycle if every record is used,
     * copy cell (r, c) and find the unused record nearest to the copy's mean
     * colour. Some record is always unused at that point, so the search
     * never comes back empty.
     */
    method Pick(r: nat, c: nat) returns (patch: Raster, found: Record, ghost k: nat)
      requires Ready() && r < rows && c < cols
      modifies this`used, records
      ensures Ready() && State() == StartCell(old(State()))
      ensures Within(Cell(r, c), image.Length0, image.Length1)
      ensures patch == Crop(Snapshot(image), Band(c), Band(r), TileSide, TileSide)
      ensures k < |records| && found == records[k] && !found.used
      ensures BestMatch(Averages(), State().used, CellColour(Snapshot(image), image.Length1, r, c)) == Some(k)
    {
      CellInGrid(image.Length0, image.Length1, rows, cols, r, c);
      StartCycleIfComplete();
      patch, found, k := CopyAndFind(r, c);
    }

    /**
     * The copy and the search of ProcessCell, once some record is unused:
     * copy cell (r, c) and find the unused record nearest to the copy's
     * mean colour.
     */
    method CopyAndFind(r: nat, c: nat) returns (patch: Raster, found: Record, ghost k: nat)
      requires Ready() && Within(Cell(r, c), image.Length0, image.Length1)
      requires exists j :: 0 <= j < |records| && !records[j].used
      ensures patch == Crop(Snapshot(image), Band(c), Band(r), TileSide, TileSide)
      ensures k < |records| && found == records[k] && !found.used
      ensures BestMatch(Averages(), State().used, CellColour(Snapshot(image), image.Length1, r, c)) == Some(k)
    {
      BandIsProduct(r);
      BandIsProduct(c);
      var cellx := c * sizex;
      var celly := r * sizey;
      patch := Crop(Snapshot(image), cellx, celly, sizex, sizey);
      var average := PixelSum(patch);
      var best, i := FindBestMatch(average);
      found, k := best, i;
    }

    /**
     * The middle of ProcessCell: blend the copy of cell (r, c) with the tile
     * under the mask and write the result back over the cell.
     */
    method WriteCell(r: nat, c: nat, patch: Raster, tile: Raster)
      requires Ready() && IsImage(tile, TileSide, TileSide)
      requires Within(Cell(r, c), image.Length0, image.Length1)
      requires patch == Crop(Snapshot(image), Band(c), Band(r), TileSide, TileSide)
      modifies image
      ensures Ready() && State() == old(State())
      ensures Snapshot(image) == BlendCell(old(Snapshot(image)), image.Length1, tile, mask, r, c)
    {
      var blended := Blend(patch, tile, mask);
      BandIsProduct(r);
      BandIsProduct(c);
      PasteRegion(image, blended, c * sizex, r * sizey);
      CopyBlendPaste(old(Snapshot(image)), image.Length1, tile, mask, r, c);
    }

    /** The tail of ProcessCell: flag the chosen record and count it. */
    method Flag(found: Record, ghost k: nat)
      requires Ready() && k < |records| && found == records[k] && !found.used
      modifies found, this`used
      ensures Ready()
      ensures State() == Cycle(old(State()).used[k := true], old(used) + 1)
    {
      ghost var flags := FlagsOf(records);
      found.used := true;
      used := used + 1;
      assert forall j :: 0 <= j < |records| ==> FlagsOf(records)[j] == flags[k := true][j];
      assert FlagsOf(records) == flags[k := true];
      CountAfterFlag(flags, k);
    }

    /**
     * Work: load the database, size the grid, then run ProcessCell on every
     * cell, row by row and each row left to right; the result is the
     * region of whole cells, or the whole canvas when there is no whole
     * cell at all (the all-zero crop clears the ROI). The canvas comes decoded and already blurred,
     * the tiles decoded and resized, the mask built. An empty database
     * makes the tile size zero, and the grid division fails.
     */
    method Work(tiles: seq<Raster>, canvas: array2<Bgr>, mask: seq<seq<int>>) returns (outcome: Outcome)
      requires Valid() && records == [] && sizex == 0 && sizey == 0
      requires AreTiles(tiles) && IsMask(mask)
      modifies this, canvas
      ensures image == canvas && Tiles() == tiles && Averages() == TileColours(tiles)
      ensures outcome.DivideByZero? <==> tiles == []
      ensures outcome.DivideByZero? <==> GridSize(canvas.Length0, canvas.Length1, sizex, sizey).None?
      ensures outcome.DivideByZero? ==> Snapshot(canvas) == old(Snapshot(canvas))
      ensures outcome.Saved? ==>
        && tiles != []
        && rows == canvas.Length1 / TileSide && cols == canvas.Length0 / TileSide
        && GridSize(canvas.Length0, canvas.Length1, sizex, sizey) == Some((rows, cols))
        && outcome.region == Roi(CropRect(rows, cols, TileSide, TileSide), canvas.Length0, canvas.Length1)
        && Within(outcome.region, canvas.Length0, canvas.Length1)
        && (rows == 0 && cols == 0 ==> outcome.region == Rect(0, 0, canvas.Length0, canvas.Length1))
        && (rows > 0 || cols > 0 ==> outcome.region == CropRect(rows, cols, TileSide, TileSide))
        && HoldsGrid(canvas.Length0, canvas.Length1, rows, cols)
        && cols * TileSide <= canvas.Length0 && rows * TileSide <= canvas.Length1
        && var g := old(Snapshot(canvas));
           var run := Run(TileColours(tiles), Fresh(|tiles|), GridColours(g, canvas.Length1, rows, cols));
           && State() == run.1
           && Snapshot(canvas) == Composite(g, canvas.Length1, tiles, mask, rows, cols, run.0)
    {
      var sized := Prepare(tiles, canvas, mask);
      if !sized {
        return DivideByZero;
      }
      ghost var g := Snapshot(canvas);
      SavedRegion(canvas.Length0, canvas.Length1, TileSide, TileSide);
      ScanGrid(g, canvas.Length1, tiles, TileColours(tiles));
      HoldsGridIsProduct(canvas.Length0, canvas.Length1, rows, cols);
      WholeBandsIsQuotient(canvas.Length1, rows);
      WholeBandsIsQuotient(canvas.Length0, cols);
      outcome := Saved(Roi(CropRect(rows, cols, sizex, sizey), canvas.Length0, canvas.Length1));
    }

    /**
     * The set-up part of Work: take the canvas, load every database image,
     * divide the canvas into whole cells, reset the counter and keep the
     * mask. The division fails exactly when the database is empty.
     */
    method Prepare(tiles: seq<Raster>, canvas: array2<Bgr>, mask: seq<seq<int>>) returns (sized: bool)
      requires Valid() && records == [] && sizex == 0 && sizey == 0
      requires AreTiles(tiles) && IsMask(mask)
      modifies this
      ensures image == canvas && Tiles() == tiles && Averages() == TileColours(tiles)
      ensures sized <==> tiles != []
      ensures !sized ==> sizex == 0 && sizey == 0
      ensures sized ==> Ready() && State() == Fresh(|tiles|) && sizex == TileSide && sizey == TileSide
      ensures sized ==> this.mask == mask
      ensures forall j :: 0 <= j < |records| ==> fresh(records[j])
    {
      image := canvas;
      LoadAll(tiles);
      if sizex == 0 || sizey == 0 {
        return false;
      }
      assert sizex == TileSide && sizey == TileSide;
      SizeGrid(mask);
      sized := true;
    }

    /**
     * The grid of Work: as many whole cells as fit across and down the
     * canvas, the counter reset and the mask kept.
     */
    method SizeGrid(mask: seq<seq<int>>)
      requires Valid() && |records| > 0 && State() == Fresh(|records|) && IsMask(mask)
      modifies this`rows, this`cols, this`used, this`mask
      ensures Ready() && State() == Fresh(|records|) && this.mask == mask
      ensures rows == CountBands(image.Length1) && cols == CountBands(image.Length0)
    {
      rows, cols := CountBands(image.Length1), CountBands(image.Length0);
      used := 0;
      this.mask := mask;
    }

    /** The loading loop of Work: one record per database image, in order. */
    method LoadAll(tiles: seq<Raster>)
      requires Valid() && records == [] && sizex == 0 && sizey == 0 && AreTiles(tiles)
      modifies this`records, this`sizex, this`sizey
      ensures Valid() && State() == Fresh(|tiles|)
      ensures Tiles() == tiles && Averages() == TileColours(tiles)
      ensures forall j :: 0 <= j < |records| ==> fresh(records[j])
      ensures sizex == sizey && (tiles == [] <==> sizex == 0)
      ensures image == old(image) && mask == old(mask) && rows == old(rows) && cols == old(cols)
    {
      for i := 0 to |tiles|
        invariant Valid() && |records| == i
        invariant forall j :: 0 <= j < i ==> fresh(records[j])
        invariant forall j :: 0 <= j < i ==> records[j].image == tiles[j] && records[j].average == PixelSum(tiles[j])
        invariant State() == Fresh(i)
        invariant i == 0 ==> sizex == 0 && sizey == 0
      {
        ghost var before := records;
        Load(tiles[i]);
        forall j | 0 <= j <= i
          ensures fresh(records[j]) && records[j].image == tiles[j] && records[j].average == PixelSum(tiles[j])
        {
          if j < i {
            assert records[j] == before[j];
          }
        }
        FreshAppend(i);
      }
      assert Tiles() == tiles;
      assert Averages() == TileColours(tiles);
    }

    /**
     * The loops of Work: ProcessCell on every cell of the grid, row by row
     * and each row left to right. g, h, tiles and avgs name the canvas, its
     * height, the tiles and their colours on entry.
     */
    method ScanGrid(ghost g: Raster, ghost h: nat, ghost tiles: seq<Raster>, ghost avgs: seq<Bgr>)
      requires Ready() && g == Snapshot(image) && h == image.Length1
      requires tiles == Tiles() && avgs == Averages() && State() == Fresh(|avgs|)
      modifies this`used, records, image
      ensures Ready()
      ensures HoldsGrid(|g|, h, rows, cols) && IsImage(g, |g|, h) && AreTiles(tiles) && |avgs| > 0
      ensures var run := Run(avgs, Fresh(|avgs|), GridColours(g, h, rows, cols));
        && State() == run.1
        && Snapshot(image) == Composite(g, h, tiles, mask, rows, cols, run.0)
    {
      ghost var c0 := State();
      GridScanStart(g, h, tiles, mask, avgs, c0, rows, cols);
      ghost var ks := ScanRows(g, h, tiles, avgs, c0);
      GridScanDone(g, h, tiles, mask, avgs, c0, rows, cols, ks, State(), Snapshot(image));
    }

    /** The outer loop of Work: every row of the grid, top to bottom. */
    method ScanRows(ghost g: Raster, ghost h: nat, ghost tiles: seq<Raster>, ghost avgs: seq<Bgr>, ghost c0: Cycle)
      returns (ghost ks: seq<nat>)
      requires Ready() && Averages() == avgs && Tiles() == tiles && image.Length0 == |g| && image.Length1 == h
      requires Scanned(g, h, tiles, mask, avgs, c0, Cells(rows, cols), Before(cols, 0, 0), [], State(), Snapshot(image))
      modifies this`used, records, image
      ensures Ready()
      ensures Scanned(g, h, tiles, mask, avgs, c0, Cells(rows, cols), Before(cols, rows, 0), ks, State(), Snapshot(image))
    {
      ks := [];
      ghost var cs, m := Cells(rows, cols), mask;
      var r := 0;
      while r != rows
        invariant r <= rows && cs == Cells(rows, cols) && m == mask
        invariant Ready() && Averages() == avgs && Tiles() == tiles && image.Length0 == |g| && image.Length1 == h
        invariant Scanned(g, h, tiles, m, avgs, c0, cs, Before(cols, r, 0), ks, State(), Snapshot(image))
      {
        ks := ScanRow(r, g, h, tiles, avgs, c0, cs, m, ks);
        r := r + 1;
      }
    }

    /**
     * One pass of the outer loop of Work: ProcessCell on every cell of row
     * r, left to right. cs and m name the grid's cells and the mask.
     */
    method ScanRow(r: nat, ghost g: Raster, ghost h: nat, ghost tiles: seq<Raster>, ghost avgs: seq<Bgr>,
                   ghost c0: Cycle, ghost cs: seq<(nat, nat)>, ghost m: seq<seq<int>>, ghost ks0: seq<nat>)
      returns (ghost ks: seq<nat>)
      requires Ready() && Averages() == avgs && Tiles() == tiles && image.Length0 == |g| && image.Length1 == h && r < rows
      requires cs == Cells(rows, cols) && m == mask
      requires Scanned(g, h, tiles, m, avgs, c0, cs, Before(cols, r, 0), ks0, State(), Snapshot(image))
      modifies this`used, records, image
      ensures Ready()
      ensures Scanned(g, h, tiles, m, avgs, c0, cs, Before(cols, r + 1, 0), ks, State(), Snapshot(image))
    {
      ks := ks0;
      ghost var t := Before(cols, r, 0);
      var c := 0;
      while c != cols
        invariant c <= cols && t == Before(cols, r, c)
        invariant Ready()
        invariant Scanned(g, h, tiles, m, avgs, c0, cs, t, ks, State(), Snapshot(image))
      {
        ks := ScanCell(r, c, g, h, tiles, avgs, c0, cs, m, t, ks);
        t := t + 1;
        c := c + 1;
      }
    }

    /** One pass of the inner loop of Work: ProcessCell on cell (r, c), the t-th cell of the scan. */
    method ScanCell(r: nat, c: nat, ghost g: Raster, ghost h: nat, ghost tiles: seq<Raster>, ghost avgs: seq<Bgr>,
                    ghost c0: Cycle, ghost cs: seq<(nat, nat)>, ghost m: seq<seq<int>>, ghost t: nat, ghost ks0: seq<nat>)
      returns (ghost ks: seq<nat>)
      requires Ready() && Averages() == avgs && Tiles() == tiles && image.Length0 == |g| && image.Length1 == h && r < rows && c < cols
      requires cs == Cells(rows, cols) && m == mask && t == Before(cols, r, c)
      requires Scanned(g, h, tiles, m, avgs, c0, cs, t, ks0, State(), Snapshot(image))
      modifies this`used, records, image
      ensures Ready()
      ensures Scanned(g, h, tiles, m, avgs, c0, cs, t + 1, ks, State(), Snapshot(image))
    {
      ghost var st, img := State(), Snapshot(image);
      ghost var k := ProcessCell(r, c);
      GridScanCell(g, h, tiles, m, avgs, c0, rows, cols, r, c, ks0, st, img, k, State(), Snapshot(image));
      ks := ks0 + [k];
    }
  }
}
