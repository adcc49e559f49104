# FaceMosaic core in Dafny

FaceMosaic builds a photo mosaic. It has two parts, and both are modelled and proved here.

`DatabaseMatcher` works in three stages:

- **Load.** It loads a database of face images, resized to 60 x 60 tiles, each with its mean colour.
- **Grid.** It cuts a blurred canvas into whole 60 x 60 cells.
- **Cells.** It visits every cell row by row, each row left to right (`ProcessCell`). For each cell it:
  - picks the unused tile whose mean colour is nearest to the cell's. The first record wins a tie. The pick is made after the flags reset once every tile has been used;
  - blends the tile into the cell under an elliptical mask;
  - flags the tile.

  Finally it crops the canvas to the whole cells. A canvas with no whole cell in either direction gives the all-zero rectangle, which is `Rectangle.Empty`. That clears the region of interest, so the whole canvas is saved.

`Cognitec87FaceDetector`'s header helpers build a Windows BITMAPINFO for a bitmap. The buffer holds the 40-byte BITMAPINFOHEADER, and, depending on the pixel format, 5-6-5 colour masks or room for a palette. The helpers write the fields with little-endian byte stores.

Modules:

- `Selection` (selection.dfy): the nearest-colour search and the anti-repetition cycle as pure functions over record averages, `used` flags and the counter `m_used`.
- `Pixels` (pixels.dfy): the blend arithmetic. It also holds the images as values: `Snapshot` of an `array2`, `Crop`, `Blended`, `Overlay`, and channel sums standing for `GetAverage`.
- `Grid` (grid.dfy): cell rectangles, the `rows`/`cols` division, disjointness of cells, the row-major order and the final crop.
- `Mosaic` (mosaic.dfy): the canvas after the scan as a value, proved equal to what the step-by-step scan produces.
- `Matcher` (matcher.dfy): the classes `Record` and `DatabaseMatcher`, whose methods update `used`, `m_used` and the canvas array in place.
  - Each method is proved against the functions of the modules above.
  - `Work`'s nested loop is split into `ScanGrid`, `ScanRows`, `ScanRow` and `ScanCell`.
  - `ProcessCell`'s parts are `Pick` (with `StartCycleIfComplete` and `CopyAndFind`) and `Place` (with `WriteCell` and `Flag`).
  - `Work`'s set-up is `Prepare`, `LoadAll` and `SizeGrid`.
- `BitmapInfo` (bitmap_info.dfy):
  - the byte writers as methods on `array<Byte>`, specified by `Put`, with little-endian decoders and round trips;
  - `GetBitmapInfo`, with its header stores in `StoreHeader` and its palette loop in `StorePalette`;
  - the proof that the overlapping 32-bit stores at offsets 12, 14 and 16 still produce the standard field layout.

### Modelling decisions

- **Colours are integers.** The channels of byte images are integers. The mean colours that `FindBestMatch` compares are held as channel sums. Every tile and every cell has 3600 pixels, so sums and means order distances identically.
- **Squared distance.** The distance is compared squared, because `Math.Sqrt` is strictly increasing and gives the same minimum and the same ties.
- **The initial bound.** The initial `Double.MaxValue` is "no candidate yet". Every finite distance is below it.
- **Blend rounding.** The blend of one channel is the exact weighted mean `(a*m + b*(255-m))/255`, rounded to the nearest integer as the byte image stores it. With 255 odd, that integer is unique.
- **Image orientation.** Images are `array2` values indexed `[x, y]`, as `Blend` indexes them. Tiles, cells and the mask are all 60 x 60 and the blend is per pixel, so the orientation of Emgu's indexer changes no result.
- **The grid.** The source computes cell offsets as products (`c * m_sizex`) and the grid as divisions (`Height / m_sizey`). `Grid` states them in that form: `CellRect`, `GridSize` and `CropRect`.
- **The saved region.** The image library's ROI setter takes `Rectangle.Empty`, the all-zero rectangle, as "no region of interest". `Grid.Roi` models that, and `Work` saves `Roi` of the crop. The crop is all-zero only when the canvas holds no whole cell in either direction.
  - `Mosaic` and the scan build the same numbers band by band instead. `Band(n)` adds 60 per band, `CountBands` subtracts 60 per band, and `Cell` is made of bands. This keeps multiplication and division out of the proofs about the scan, so the solver's arithmetic there stays linear.
  - `BandIsProduct`, `CellIsCellRect` and `WholeBandsIsQuotient` prove the two forms equal.
  - `Prepare` computes `rows` and `cols` with `CountBands`. `Work`'s postcondition states them both as the divisions and as `GridSize` of the canvas and the tile size.
- **Integer widths.**
  - `Int32` is the 32-bit range of a C# `int`.
  - The `-height` of `GetBitmapInfo` wraps for the one value without a negation (`Negate`).
  - `(byte)(v >> k)` is `(v / 2^k) % 256`. Dafny's division by a positive number floors, as the arithmetic shift does, and its remainder keeps the low eight bits, as the cast does.
- **The index error.** An out-of-range store in the palette loop throws `IndexOutOfRangeException`, which abandons the buffer. It is modelled as `None`.

## Model

| member | source | states |
|---|---|---|
| Selection.DistanceSq | FaceMosaic/DatabaseMatcher.cs:96-99 | the (squared) colour distance is non-negative and zero exactly for equal colours |
| Selection.IsBestAmong | FaceMosaic/DatabaseMatcher.cs:87-110 | a best record k among the first n is one of them and beats every other unused one of them: a strictly smaller distance, or the same distance and an earlier position |
| Selection.Scan | FaceMosaic/DatabaseMatcher.cs:89-107 | after the first n records the search holds nothing iff all n are used; otherwise an unused record that no unused record beats, and that every earlier unused record is strictly farther from (first wins on a tie) |
| Selection.BestMatch | FaceMosaic/DatabaseMatcher.cs:87-110 | no record exactly when every record is used; otherwise the unused record with the smallest distance, the first one on a tie |
| Selection.BestAmongIsUnique | FaceMosaic/DatabaseMatcher.cs:101-105 | the strict `<` makes the chosen record unique: two records both best-with-first-wins are the same record |
| Selection.ExactColourWins | FaceMosaic/DatabaseMatcher.cs:92-109 | a query equal to an unused record's average gets a record with that same average, no later in the list |
| Selection.CountUsed | FaceMosaic/DatabaseMatcher.cs:28 | the number of flagged records is at most the number of records |
| Selection.CountFullIffAllUsed | FaceMosaic/DatabaseMatcher.cs:137 | the counter equals the record count exactly when every record is flagged |
| Selection.CountAfterFlag | FaceMosaic/DatabaseMatcher.cs:175-176 | flagging an unused record raises the count by exactly one |
| Selection.CountNoneUsed | FaceMosaic/DatabaseMatcher.cs:138-141 | with no flag set the count is zero |
| Selection.CountAppendUnused | FaceMosaic/DatabaseMatcher.cs:16 | appending an unused record keeps the count |
| Selection.FreshAppend | FaceMosaic/DatabaseMatcher.cs:198 | a fresh cycle with one more unused record appended is the fresh cycle over one more record |
| Selection.Fresh | FaceMosaic/DatabaseMatcher.cs:223 | the start of a cycle (no flag, counter 0) satisfies the counter invariant |
| Selection.StartCell | FaceMosaic/DatabaseMatcher.cs:137-142 | the reset check keeps the record count and the counter invariant, and either leaves the state as it is or starts a fresh cycle |
| Selection.StartCellLeavesUnused | FaceMosaic/DatabaseMatcher.cs:137-142 | after the reset check some record is unused whenever there is a record, so FindBestMatch never returns null inside ProcessCell |
| Selection.Select | FaceMosaic/DatabaseMatcher.cs:137-158 | one cell: after the reset the chosen record is the best unused one, it becomes flagged, the counter rises by one and the invariant holds |
| Selection.SelectTakesBestMatch | FaceMosaic/DatabaseMatcher.cs:158-176 | Select flags and counts exactly the record BestMatch names after the reset |
| Selection.SelectWithinCycle | FaceMosaic/DatabaseMatcher.cs:137-176 | while some record is unused, a cell takes an unused record, flags only that one and raises the counter by one |
| Selection.Run | FaceMosaic/DatabaseMatcher.cs:251-254 | a run of cells yields one valid record index per cell and keeps the counter invariant |
| Selection.RunWithinCycle | FaceMosaic/DatabaseMatcher.cs:137-142 | while cells do not outnumber unused records, every choice was unused, choices are pairwise distinct, and exactly the chosen records become flagged |
| Selection.CycleVisitsEachOnce | FaceMosaic/DatabaseMatcher.cs:137-142 | from a fresh state N cells choose all N records once each, and the next cell starts a fresh cycle |
| Pixels.BlendChannelNearest | FaceMosaic/DatabaseMatcher.cs:124-128 | the stored channel is within one half of `a*m/255 + b*(1-m/255)` |
| Pixels.BlendChannel | FaceMosaic/DatabaseMatcher.cs:124-128 | one channel of the blend; it has no contract of its own: its rounding is stated by BlendChannelNearest and its range by BlendChannelBetween |
| Pixels.BlendChannelAtZero | FaceMosaic/DatabaseMatcher.cs:124-128 | mask 0 gives the tile channel B |
| Pixels.BlendChannelAtFull | FaceMosaic/DatabaseMatcher.cs:124-128 | mask 255 gives the patch channel A |
| Pixels.BlendChannelBetween | FaceMosaic/DatabaseMatcher.cs:124-128 | every blended channel lies between the two inputs |
| Pixels.Mix | FaceMosaic/DatabaseMatcher.cs:124-128 | each channel of the blended pixel lies between the patch's channel and the tile's channel |
| Pixels.MixProperties | FaceMosaic/DatabaseMatcher.cs:122-128 | per pixel: mask 0 gives B, mask 255 gives A, byte pixels blend into a byte pixel |
| Pixels.Snapshot | FaceMosaic/DatabaseMatcher.cs:22 | the value of an image array holds every element at its (x, y) |
| Pixels.Crop | FaceMosaic/DatabaseMatcher.cs:153 | Image.Copy(rect): pixel (i, j) of the copy is pixel (x0+i, y0+j) of the image |
| Pixels.Blended | FaceMosaic/DatabaseMatcher.cs:116-129 | Blend's output has A's size; the top-left sizex x sizey pixels mix A and B by M and the rest stay black |
| Pixels.Overlay | FaceMosaic/DatabaseMatcher.cs:163-165 | writing through the ROI changes exactly the pixels of the rectangle, to the source's pixels |
| Pixels.ColumnSum | FaceMosaic/DatabaseMatcher.cs:157 | over byte pixels, each channel sum of a column lies between 0 and 255 times the column's length |
| Pixels.PixelSum | FaceMosaic/DatabaseMatcher.cs:157 | GetAverage as channel sums: over a byte image each channel sum lies between 0 and 255 times the pixel count, so the mean is a byte colour |
| Grid.GridSize | FaceMosaic/DatabaseMatcher.cs:220-221 | a zero tile size is the division by zero; otherwise rows and cols are the most whole cells that fit |
| Grid.CellRect | FaceMosaic/DatabaseMatcher.cs:145-151 | the rectangle (c*sizex, r*sizey, sizex, sizey); it has no contract of its own: CellWithinCanvas, CellOfPixel and CellsDisjoint state where it lies |
| Grid.CellWithinCanvas | FaceMosaic/DatabaseMatcher.cs:145-153 | every cell (r < rows, c < cols) lies inside the canvas |
| Grid.CellOfPixel | FaceMosaic/DatabaseMatcher.cs:145-151 | a pixel lies in cell (py / sizey, px / sizex) and in no other |
| Grid.CoordinateOfCell | FaceMosaic/DatabaseMatcher.cs:145-146 | a coordinate in band k has band index k |
| Grid.CellsDisjoint | FaceMosaic/DatabaseMatcher.cs:145-165 | two different cells share no pixel, so writing one cell leaves every other alone |
| Grid.BandsDisjoint | FaceMosaic/DatabaseMatcher.cs:145-146 | two different bands share no coordinate |
| Grid.CropWithinCanvas | FaceMosaic/DatabaseMatcher.cs:260 | the saved region cols*sizex x rows*sizey fits in the canvas |
| Grid.CropRect | FaceMosaic/DatabaseMatcher.cs:260 | the rectangle (0, 0, cols*sizex, rows*sizey); it has no contract of its own: CropWithinCanvas and CropIsUnionOfCells state what it covers |
| Grid.Roi | FaceMosaic/DatabaseMatcher.cs:165 | the region covered after setting the ROI: within the image whenever the rectangle is, and never the all-zero rectangle unless the image is empty, since Rectangle.Empty resets the ROI to the whole image |
| Grid.SavedRegion | FaceMosaic/DatabaseMatcher.cs:251-260 | the saved region fits the canvas; it is the whole canvas when no cell fits in either direction, and the whole-cell crop otherwise |
| Grid.CropIsUnionOfCells | FaceMosaic/DatabaseMatcher.cs:251-260 | a pixel is in the saved region iff its cell is in the grid |
| Grid.BandBelowLimit | FaceMosaic/DatabaseMatcher.cs:260 | a coordinate is below n bands iff its band index is below n |
| Grid.RowMajor | FaceMosaic/DatabaseMatcher.cs:251-254 | the visit index of a grid cell is below rows*cols |
| Grid.RowMajorUnique | FaceMosaic/DatabaseMatcher.cs:251-254 | distinct cells have distinct visit indices |
| Grid.RowMajorBelow | FaceMosaic/DatabaseMatcher.cs:251-254 | a cell's visit index is below rows*cols iff its row is below rows |
| Grid.CropOfExampleCanvas | FaceMosaic/DatabaseMatcher.cs:220-260 | a 1000 x 700 canvas gives 11 rows, 16 columns and a 960 x 660 saved region; a 50 x 50 canvas has no cell and is saved whole |
| Mosaic.BandIsProduct | FaceMosaic/DatabaseMatcher.cs:145-146 | band n starts at n*60, the offset `c * m_sizex` |
| Mosaic.Band | FaceMosaic/DatabaseMatcher.cs:145-146 | where band n starts, 60 added per band; it has no contract of its own: BandIsProduct proves it is n*60 |
| Mosaic.BandMonotone | FaceMosaic/DatabaseMatcher.cs:145-146 | later bands start later |
| Mosaic.WholeBandsIsQuotient | FaceMosaic/DatabaseMatcher.cs:220-221 | k whole bands fit and k+1 do not iff k is the division n / 60 |
| Mosaic.WholeBands | FaceMosaic/DatabaseMatcher.cs:220-221 | k whole bands fit into n pixels and k+1 do not; WholeBandsIsQuotient proves this holds exactly for k = n / 60 |
| Mosaic.CountBands | FaceMosaic/DatabaseMatcher.cs:220-221 | the counted bands are exactly the whole bands that fit |
| Mosaic.HoldsGridIsProduct | FaceMosaic/DatabaseMatcher.cs:260 | the canvas holds the grid iff cols*60 <= width and rows*60 <= height |
| Mosaic.CellIsCellRect | FaceMosaic/DatabaseMatcher.cs:145-151 | the band-built cell is the rectangle ProcessCell builds |
| Mosaic.Cell | FaceMosaic/DatabaseMatcher.cs:145-146 | the rectangle of cell (r, c) built from bands; it has no contract of its own: CellIsCellRect proves it is the rectangle ProcessCell builds |
| Mosaic.CellInGrid | FaceMosaic/DatabaseMatcher.cs:145-153 | every cell of a grid lies inside a canvas that holds the grid |
| Mosaic.BlendCell | FaceMosaic/DatabaseMatcher.cs:153-165 | after one cell, its pixels are blends of themselves with the tile pixel at the same offset; every other pixel is kept |
| Mosaic.CopyBlendPaste | FaceMosaic/DatabaseMatcher.cs:153-165 | copy, Blend and paste through the ROI compose to BlendCell |
| Mosaic.Cells | FaceMosaic/DatabaseMatcher.cs:251-254 | the visited cells all lie in the rows x cols grid |
| Mosaic.CellsIndex | FaceMosaic/DatabaseMatcher.cs:251-254 | there are rows*cols visits and the t-th visits the cell with row-major index t |
| Mosaic.CellAt | FaceMosaic/DatabaseMatcher.cs:251-254 | every cell of the grid is visited, at its row-major index |
| Mosaic.BeforeIsRowMajor | FaceMosaic/DatabaseMatcher.cs:251-254 | the loops reach (r, c) after r*cols + c visits |
| Mosaic.CellBefore | FaceMosaic/DatabaseMatcher.cs:251-254 | the visit reached at (r, c) is cell (r, c) |
| Mosaic.CellsBeforeEnd | FaceMosaic/DatabaseMatcher.cs:251 | the outer loop ends after the whole grid |
| Mosaic.CellsDistinct | FaceMosaic/DatabaseMatcher.cs:251-254 | no cell is visited twice |
| Mosaic.CellsWithin | FaceMosaic/DatabaseMatcher.cs:251-254 | every visited cell lies inside the canvas |
| Mosaic.Paint | FaceMosaic/DatabaseMatcher.cs:251-254 | the canvas after a list of cells keeps the canvas size |
| Mosaic.OffsetInCell | FaceMosaic/DatabaseMatcher.cs:145-146 | a pixel's offset inside its cell is its coordinate modulo 60 |
| Mosaic.PaintUnlisted | FaceMosaic/DatabaseMatcher.cs:163-165 | a pixel whose cell was not processed keeps its original value |
| Mosaic.PaintListed | FaceMosaic/DatabaseMatcher.cs:160-165 | a pixel of the i-th processed cell is the blend of its original value with tile ks[i] |
| Mosaic.PaintLast | FaceMosaic/DatabaseMatcher.cs:160-165 | the pixels of the last processed cell are blended exactly once |
| Mosaic.UnpaintedCell | FaceMosaic/DatabaseMatcher.cs:153 | ProcessCell copies an untouched cell: earlier cells did not write it |
| Mosaic.Colours | FaceMosaic/DatabaseMatcher.cs:157 | the query colour of each visited cell, in order |
| Mosaic.CellColour | FaceMosaic/DatabaseMatcher.cs:153-157 | the colour FindBestMatch is asked for: the channel sums of the cell's 60 x 60 pixels (PixelSum of the Crop); it has no contract of its own |
| Mosaic.TileColours | FaceMosaic/DatabaseMatcher.cs:190 | each record's average is its tile's GetAverage (as channel sums) |
| Mosaic.PaintStep | FaceMosaic/DatabaseMatcher.cs:160-165 | one more cell blends its tile over the canvas painted so far |
| Mosaic.RunStep | FaceMosaic/DatabaseMatcher.cs:157-158 | one more cell extends the run by the selection for that cell's colour |
| Mosaic.ScanAdvance | FaceMosaic/DatabaseMatcher.cs:135-178 | ProcessCell on the next cell extends both the run of choices and the painted canvas |
| Mosaic.RunAdvance | FaceMosaic/DatabaseMatcher.cs:153-158 | the colour read on the painted canvas is the cell's original colour, so the run extends |
| Mosaic.PaintedCellColour | FaceMosaic/DatabaseMatcher.cs:153-157 | the next cell's colour on the canvas painted so far is its colour on the original canvas |
| Mosaic.ScannedDone | FaceMosaic/DatabaseMatcher.cs:251-254 | a scan after t cells: the choices and state are the run over those cells' colours and the canvas is their painting |
| Mosaic.GridScanStart | FaceMosaic/DatabaseMatcher.cs:222-251 | before the loops nothing is chosen and the canvas is untouched |
| Mosaic.GridScanCell | FaceMosaic/DatabaseMatcher.cs:253-254 | the inner loop body advances the scan by cell (r, c) |
| Mosaic.GridScanDone | FaceMosaic/DatabaseMatcher.cs:251-258 | after the loops the state is the run's end over the ORIGINAL cell colours and the canvas is the composite of its choices |
| Mosaic.GridColours | FaceMosaic/DatabaseMatcher.cs:157 | one query colour per grid cell |
| Mosaic.Composite | FaceMosaic/DatabaseMatcher.cs:251-258 | the finished canvas keeps its size |
| Mosaic.CellIndex | FaceMosaic/DatabaseMatcher.cs:251-260 | a saved pixel's cell has a visit index below rows*cols |
| Mosaic.MosaicPixel | FaceMosaic/DatabaseMatcher.cs:251-260 | each saved pixel is the mask blend of its original value with the pixel at the same offset of its cell's chosen tile; pixels outside the crop are unchanged |
| Matcher.FlagsOf | FaceMosaic/DatabaseMatcher.cs:16 | one flag per record, in list order |
| Matcher.FlagsOfAppend | FaceMosaic/DatabaseMatcher.cs:198 | appending a record appends its flag |
| Matcher.FlagsOfNoneUsed | FaceMosaic/DatabaseMatcher.cs:140-141 | records with no flag set have a fresh cycle's flags |
| Matcher.PasteRegion | FaceMosaic/DatabaseMatcher.cs:163-165 | setting the ROI and CopyTo overwrites exactly the rectangle |
| Matcher.ClearFlags | FaceMosaic/DatabaseMatcher.cs:140-141 | every record's flag is cleared |
| Matcher.Record.constructor | FaceMosaic/DatabaseMatcher.cs:12-17 | a new record holds its image and average and is unused |
| Matcher.DatabaseMatcher.Averages | FaceMosaic/DatabaseMatcher.cs:15 | the records' averages, in list order |
| Matcher.DatabaseMatcher.Tiles | FaceMosaic/DatabaseMatcher.cs:14 | the records' images, in list order |
| Matcher.DatabaseMatcher.constructor | FaceMosaic/DatabaseMatcher.cs:21-28 | no records, tile size zero, the invariant holds |
| Matcher.DatabaseMatcher.Load | FaceMosaic/DatabaseMatcher.cs:180-200 | appends a fresh unused record with the resized image and its channel sums, sets the tile size to 60 x 60, keeps the counter invariant |
| Matcher.DatabaseMatcher.FindBestMatch | FaceMosaic/DatabaseMatcher.cs:87-110 | null iff every record is used; otherwise the unused record BestMatch names |
| Matcher.DatabaseMatcher.Blend | FaceMosaic/DatabaseMatcher.cs:112-133 | returns a new image equal to Blended(A, B, M) |
| Matcher.DatabaseMatcher.StartCycleIfComplete | FaceMosaic/DatabaseMatcher.cs:137-142 | the reset check: the new state is StartCell of the old one, and some record is unused afterwards |
| Matcher.DatabaseMatcher.NewCycle | FaceMosaic/DatabaseMatcher.cs:138-141 | clearing every flag and the counter leaves the state of a fresh cycle and keeps the invariant |
| Matcher.DatabaseMatcher.ProcessCell | FaceMosaic/DatabaseMatcher.cs:135-178 | the choice and new state are Select of the old state on the cell's colour; the canvas becomes BlendCell with the chosen tile |
| Matcher.DatabaseMatcher.Pick | FaceMosaic/DatabaseMatcher.cs:137-158 | after the reset check, the copied patch is the cell and the found record is the unused one BestMatch names |
| Matcher.DatabaseMatcher.CopyAndFind | FaceMosaic/DatabaseMatcher.cs:153-158 | with some record unused, the copied patch is the cell and the found record is the unused one BestMatch names |
| Matcher.DatabaseMatcher.WriteCell | FaceMosaic/DatabaseMatcher.cs:160-165 | blending and pasting turn the canvas into BlendCell and change no flag |
| Matcher.DatabaseMatcher.Place | FaceMosaic/DatabaseMatcher.cs:160-176 | the canvas becomes BlendCell with the found record's tile, and exactly that record's flag is set with the counter raised by one |
| Matcher.DatabaseMatcher.Flag | FaceMosaic/DatabaseMatcher.cs:175-176 | exactly the chosen record's flag is set and the counter rises by one |
| Matcher.DatabaseMatcher.Work | FaceMosaic/DatabaseMatcher.cs:201-262 | empty database (a zero tile size, where GridSize has no grid): division by zero with the canvas untouched; otherwise rows/cols are the divisions and GridSize's result, the region is the crop, or the whole canvas when rows and cols are both 0 (the all-zero crop clears the ROI), and fits, and the final canvas and state are Composite and Run over the original cell colours |
| Matcher.DatabaseMatcher.Prepare | FaceMosaic/DatabaseMatcher.cs:203-223 | loads every tile in order, sizes the grid and resets the counter; it fails exactly for an empty database |
| Matcher.DatabaseMatcher.SizeGrid | FaceMosaic/DatabaseMatcher.cs:220-223 | rows and cols are the counted whole bands, the counter is 0 |
| Matcher.DatabaseMatcher.LoadAll | FaceMosaic/DatabaseMatcher.cs:213-217 | one unused record per tile, in order, with the tiles' averages; tile size 0 iff no tile |
| Matcher.DatabaseMatcher.ScanGrid | FaceMosaic/DatabaseMatcher.cs:251-258 | the nested loops leave the state and canvas of the whole-grid Run and Composite |
| Matcher.DatabaseMatcher.ScanRows | FaceMosaic/DatabaseMatcher.cs:251-258 | the outer loop scans every row |
| Matcher.DatabaseMatcher.ScanRow | FaceMosaic/DatabaseMatcher.cs:253-254 | the inner loop scans every cell of row r |
| Matcher.DatabaseMatcher.ScanCell | FaceMosaic/DatabaseMatcher.cs:254 | ProcessCell on (r, c) advances the scan by one cell |
| BitmapInfo.FormatToBitCount | FaceMosaic/Cognitec87FaceDetector.cs:167-204 | the bit count is one of 1, 4, 8, 16, 24, 32, 48, 64; an unlisted format gives 32 |
| BitmapInfo.InfoSize | FaceMosaic/Cognitec87FaceDetector.cs:125-133 | at least 40 bytes, 40 plus a multiple of 4 |
| BitmapInfo.InfoSizes | FaceMosaic/Cognitec87FaceDetector.cs:125-133 | 52 for 5-6-5 RGB, 1064 for 8 bits, 144 for 4 bits, 88 for 1 bit, 40 otherwise |
| BitmapInfo.LowByte | FaceMosaic/Cognitec87FaceDetector.cs:225 | the cast keeps x modulo 256 |
| BitmapInfo.Int32Bytes | FaceMosaic/Cognitec87FaceDetector.cs:223-229 | four bytes, low byte first; Int32RoundTrip and Int32BytesOfDecode prove they are the value's two's-complement encoding |
| BitmapInfo.UInt16Bytes | FaceMosaic/Cognitec87FaceDetector.cs:216-220 | two bytes, low byte first; UInt16RoundTrip and UInt16IsLowHalf state what they hold |
| BitmapInfo.BgrBytes | FaceMosaic/Cognitec87FaceDetector.cs:207-213 | four bytes; BgrIsLow24Bits proves they are the value's three low bytes, then a zero byte |
| BitmapInfo.DecodeUInt32 | FaceMosaic/Cognitec87FaceDetector.cs:223-229 | four bytes read little-endian give a value below 2^32 |
| BitmapInfo.DecodeInt32 | FaceMosaic/Cognitec87FaceDetector.cs:223-229 | the signed reading differs from the unsigned one by 0 or 2^32 |
| BitmapInfo.DecodeUInt16 | FaceMosaic/Cognitec87FaceDetector.cs:216-220 | two bytes read little-endian give a value below 2^16 |
| BitmapInfo.Int32RoundTrip | FaceMosaic/Cognitec87FaceDetector.cs:223-229 | decoding what WriteInt32 stores returns the value, negative values such as -height included |
| BitmapInfo.Int32BytesOfDecode | FaceMosaic/Cognitec87FaceDetector.cs:223-229 | every four bytes are what WriteInt32 stores for the value they decode to |
| BitmapInfo.UInt16RoundTrip | FaceMosaic/Cognitec87FaceDetector.cs:216-220 | for 0 <= value < 65536 decoding what WriteUInt16 stores returns the value |
| BitmapInfo.UInt16IsLowHalf | FaceMosaic/Cognitec87FaceDetector.cs:216-229 | WriteUInt16 stores the low half of what WriteInt32 stores |
| BitmapInfo.BgrIsLow24Bits | FaceMosaic/Cognitec87FaceDetector.cs:207-213 | the RGBQUAD holds the value's three low bytes in order and a zero byte; read back it is the value modulo 2^24 |
| BitmapInfo.Put | FaceMosaic/Cognitec87FaceDetector.cs:223-229 | a store changes exactly the bytes it covers, to the given bytes |
| BitmapInfo.Zeros | FaceMosaic/Cognitec87FaceDetector.cs:134 | a new byte array is all zeros |
| BitmapInfo.WriteInt32 | FaceMosaic/Cognitec87FaceDetector.cs:223-229 | the buffer becomes the old buffer with the value's four little-endian bytes at offset, nothing else changed |
| BitmapInfo.WriteUInt16 | FaceMosaic/Cognitec87FaceDetector.cs:216-220 | the buffer changes exactly at offset and offset+1, to the low and high byte |
| BitmapInfo.WriteBGR | FaceMosaic/Cognitec87FaceDetector.cs:207-213 | the buffer changes exactly at offset .. offset+3, to the RGBQUAD |
| BitmapInfo.Negate | FaceMosaic/Cognitec87FaceDetector.cs:137 | `-height` negates, wrapping for int.MinValue |
| BitmapInfo.Compression | FaceMosaic/Cognitec87FaceDetector.cs:119-149 | BI_BITFIELDS exactly for 5-6-5 RGB, BI_RGB otherwise |
| BitmapInfo.SmallWord | FaceMosaic/Cognitec87FaceDetector.cs:138-139 | a 16-bit value stored as 32 bits is its 16-bit form then two zero bytes |
| BitmapInfo.SizeAndExtentLayout | FaceMosaic/Cognitec87FaceDetector.cs:135-137 | the first three stores leave biSize, biWidth and biHeight and keep the rest |
| BitmapInfo.PlanesAndBitCountLayout | FaceMosaic/Cognitec87FaceDetector.cs:138-139 | the overlapping stores at 12 and 14 leave 16-bit biPlanes = 1 and biBitCount, then two zero bytes |
| BitmapInfo.CompressionAndMasksLayout | FaceMosaic/Cognitec87FaceDetector.cs:140-149 | the compression store covers 16..19 and the mask stores 40..51 |
| BitmapInfo.ColourMasks | FaceMosaic/Cognitec87FaceDetector.cs:142-146 | 12 bytes of masks for 5-6-5 RGB, exactly the room after the 40-byte header, and none for any other format; ColourMaskValues reads them back |
| BitmapInfo.ImageFieldsLayout | FaceMosaic/Cognitec87FaceDetector.cs:151-155 | the last five stores cover 20..39 |
| BitmapInfo.StandardHeader | FaceMosaic/Cognitec87FaceDetector.cs:135-155 | the BITMAPINFOHEADER without overlapping stores is 40 bytes; StandardHeaderFields reads its eleven fields back |
| BitmapInfo.HeaderWrites | FaceMosaic/Cognitec87FaceDetector.cs:134-155 | the buffer after every header store has InfoSize(format) bytes; HeaderLayout gives its contents |
| BitmapInfo.HeaderLayout | FaceMosaic/Cognitec87FaceDetector.cs:134-155 | despite the overlaps the buffer is the standard non-overlapping header, then the 5-6-5 masks, then zeros |
| BitmapInfo.LeadingFields | FaceMosaic/Cognitec87FaceDetector.cs:135-149 | bytes 0..19 are the first six fields in their standard widths |
| BitmapInfo.TrailingBytes | FaceMosaic/Cognitec87FaceDetector.cs:140-147 | from byte 40 on: the masks, if any, then zeros |
| BitmapInfo.StandardHeaderFields | FaceMosaic/Cognitec87FaceDetector.cs:135-155 | read back: 40, width, -height, 16-bit 1, 16-bit bit count, compression, 0, 3780, 3780, 0, 0 |
| BitmapInfo.ColourMaskValues | FaceMosaic/Cognitec87FaceDetector.cs:144-146 | read back, the masks are 0xF800, 0x07E0 and 0x001F |
| BitmapInfo.WritePalette | FaceMosaic/Cognitec87FaceDetector.cs:157-162 | the palette loop fails iff 40 + 4*n exceeds the buffer, and otherwise keeps its length |
| BitmapInfo.PaletteLayout | FaceMosaic/Cognitec87FaceDetector.cs:157-162 | a fitting palette leaves bytes 0..39 and the bytes after it alone and holds entry i at 40 + 4*i |
| BitmapInfo.Info | FaceMosaic/Cognitec87FaceDetector.cs:122-164 | the index error happens exactly for a palette longer than the buffer's room; otherwise the result has InfoSize bytes |
| BitmapInfo.PaletteCapacity | FaceMosaic/Cognitec87FaceDetector.cs:125-162 | palettes of up to 3, 256, 26, 12 and 0 entries fit, by format |
| BitmapInfo.InfoWithoutPalette | FaceMosaic/Cognitec87FaceDetector.cs:122-164 | with a null palette: bytes 0..39 are the standard header, followed by the masks for 5-6-5 RGB and zeros to the end |
| BitmapInfo.InfoWithPalette | FaceMosaic/Cognitec87FaceDetector.cs:157-162 | with a fitting palette: the standard header, entry i as an RGBQUAD at 40 + 4*i, the header bytes after the last entry |
| BitmapInfo.StoreHeader | FaceMosaic/Cognitec87FaceDetector.cs:135-155 | the header stores in source order produce HeaderWrites |
| BitmapInfo.StorePalette | FaceMosaic/Cognitec87FaceDetector.cs:157-162 | the loop succeeds iff WritePalette does, leaving its bytes |
| BitmapInfo.GetBitmapInfo | FaceMosaic/Cognitec87FaceDetector.cs:122-164 | returns a fresh buffer equal to Info, or the index error exactly when Info has it |

## Left out

- Emgu/OpenCV calls. Image decoding, `Resize` with Lanczos, `GetAverage` and `Save` are foreign library calls and file I/O. The model takes the resized tiles and the decoded canvas as inputs, and the average as the exact channel sum.
- The canvas blur `_SmoothGaussian(51)` and the mask construction (ellipse, Gaussian blur, scaling, `_Not`). The canvas reaches `Work` already blurred, and the mask is any 60 x 60 image with values 0..255.
- Directory scanning and file names in `Work`/`Load`. `LoadAll` takes the decoded images in directory order. `Load`'s `record.image != null` test and `Work`'s `m_image == null` test can never see a null (a C# constructor never returns one), so neither has a branch.
- Logging through `Console.WriteLine`.
- `FindBestMatchTemplateMatch`. It depends entirely on OpenCV template matching, and its only call is commented out.
- IEEE doubles. The square root, the blend's double arithmetic and the rounding of a double into a byte are modelled exactly: squared integer distances, and the nearest integer of the exact weighted mean.
- Matcher.DatabaseMatcher.Work: stated for a matcher with no records yet, the state `Program` creates it in. Reusing one matcher for a second `Work` call is not modelled.
- The Cognitec SDK, the `Cognitec87FaceDetector` constructor and `Detect`, `FaceDatabaseBuilder` and `Program`. They are a commercial SDK, unsafe pinning, float geometry and a WinForms entry point.
- BitmapInfo.WriteInt32, BitmapInfo.WriteUInt16, BitmapInfo.WriteBGR: an offset outside the buffer is a precondition rather than an `IndexOutOfRangeException`. The one call site that can go out of range, the palette loop, models the exception as `None`.
