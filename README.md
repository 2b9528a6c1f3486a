# split-image-to-pdf: the tiling and page-fit core in Dafny

The application loads an image, cuts it into a `numRows` x `numCols` grid,
previews every tile in its own canvas and exports the canvases as a PDF with
one tile per page. This project models the arithmetic of the `AppComponent`
that does the work:

- **Grid partitioner** (`Grid`, `App`): `splitImage` discards the previous
  `imageParts` and pushes one record `{sx, sy, sw, sh, width, height}` per grid
  cell, row after row, each cell `image.width / numCols` wide and
  `image.height / numRows` high and rendered at half that size; without an
  image it does nothing. `App.AppComponent` is a class with the component's
  fields and `SplitImage` keeps the source's nested loops; the pure function
  `Grid.Tiles` is its specification, and the lemmas of `Grid` state the
  count, the row-major order, the tile sizes, contiguity and coverage.
- **Page fit** (`PageFit`): inside the page less a margin of 10 on every
  side, the largest rectangle with the raster's aspect ratio, centred on the
  page.
- **Export** (`Export`): the loop over the canvases that adds a page before
  every canvas except the first, places each raster, and saves the document
  as `split-image.pdf`. The PDF library is modelled by a document value
  (pages holding placed images, the names it was saved under) and by what
  `addPage`, `addImage` and `save` do to it.

Sizes are exact `real`s. The JavaScript original divides in double-precision
floating point, so exact facts proved here (the column offsets are
contiguous, the last column ends exactly at the image width) hold in the
source only up to rounding. The model states the intended arithmetic.

Two behaviours of the source matter here:

- The row and column inputs are read with `parseInt(value || '2')`. The `'2'`
  applies only to an empty field: an entry of `"0"` or a negative number
  reaches `splitImage` unchanged, and then no tile is produced. The model takes
  the counts as given integers and proves that a count of zero or below
  yields no tiles.
- A placement is centred on the whole page, `x = (pageWidth - renderWidth) / 2`.
  It is not placed relative to the printable area. On an A4 page (210 x 297)
  a 400 x 200 raster lands at x = 10, y = 101, at 190 x 95
  (`PageFit.WideRasterOnA4`).

## Model

| member | source | states |
|---|---|---|
| Grid.PartSize | src/app/app.component.ts:63-64 | for a positive count, the cell size times the count is the image extent, and the cell size lies between 0 and the extent |
| Grid.Cell | src/app/app.component.ts:63-76 | the record pushed for a grid cell has source size `PartSize(image.width, numCols)` by `PartSize(image.height, numRows)` (one `numCols`-th of the width by one `numRows`-th of the height) and is rendered at half that size |
| Grid.Tiles | src/app/app.component.ts:65-78 | the value of `imageParts` after a split: every entry has the source size of one grid cell and is rendered at half that size (`SplitImage` is proved to produce exactly this list) |
| Grid.RowTilesAt | src/app/app.component.ts:68-77 | after `n` inner-loop iterations a row holds `n` tiles, the k-th being the tile of column k |
| Grid.GridTilesLength | src/app/app.component.ts:67-78 | after `m` outer-loop iterations `imageParts` holds `m * numCols` tiles |
| Grid.GridTileAt | src/app/app.component.ts:67-78 | row-major order: the tile of cell (row, col) sits at index `row * numCols + col` |
| Grid.NoColumnsNoTiles | src/app/app.component.ts:67-68 | with `numCols <= 0` the inner loop never runs, so no row contributes a tile |
| Grid.TilesCount | src/app/app.component.ts:65-78 | a split leaves exactly `numRows * numCols` tiles when both are positive and none when either is zero or negative |
| Grid.TileAt | src/app/app.component.ts:63-75 | the tile at index `row * numCols + col` has `sw * numCols = image.width`, `sh * numRows = image.height`, `sx = col * sw`, `sy = row * sh`, and is rendered at half its source width and height |
| Grid.ColumnsContiguous | src/app/app.component.ts:63-73 | within a row, column `col + 1` starts exactly where column `col` ends, at the same row offset |
| Grid.RowsContiguous | src/app/app.component.ts:63-73 | within a column, row `row + 1` starts exactly where row `row` ends, at the same column offset |
| Grid.ColumnsCoverWidth | src/app/app.component.ts:63-72 | in every row the first tile starts at x = 0 and the last ends at the image width |
| Grid.RowsCoverHeight | src/app/app.component.ts:64-73 | in every column the first tile starts at y = 0 and the last ends at the image height |
| Grid.RowWidthSum | src/app/app.component.ts:63-72 | the source widths of the tiles in the slice of the split holding row `row`, indices `row * numCols` up to `(row + 1) * numCols`, add up to the image width |
| Grid.ColumnHeightSumPrefix | src/app/app.component.ts:64-73 | the source heights of the tiles of column `col` in the first `n` rows of the split add up to `n` cell heights |
| Grid.ColumnHeightSumIsHeight | src/app/app.component.ts:64-73 | the split holds `numRows * numCols` tiles, and the source heights of the tiles of any column (indices `col`, `col + numCols`, ...) add up to the image height |
| Grid.SingleTile | src/app/app.component.ts:60-79 | a 1 x 1 grid yields the whole image as its only tile, rendered at half its width and height |
| App.AppComponent.constructor | src/app/app.component.ts:23-29 | a new component has no image, a 2 x 2 grid and no tiles |
| App.AppComponent.SplitImage | src/app/app.component.ts:60-79 | without an image `imageParts` is unchanged; with one, the old tiles are discarded and `imageParts` becomes exactly the row-major tile list of the current image and grid |
| App.AppComponent.SetGrid | src/app/app.component.ts:139-141 | stores the new row and column counts, then splits again as `SplitImage` does |
| PageFit.FitToArea | src/app/app.component.ts:107-115 | the render size keeps the image ratio (`width = height * ratio`), fits the printable area, and fills it in at least one dimension |
| PageFit.FitIsLargest | src/app/app.component.ts:108-115 | any size with the image ratio that fits the printable area is no wider and no taller than the fitted one |
| PageFit.Place | src/app/app.component.ts:93-118 | with a margin of 10, the placed raster keeps its aspect ratio, fits the page less the margins, fills one printable dimension, and leaves equal gaps of at least the margin left and right and top and bottom |
| PageFit.PlaceIsLargest | src/app/app.component.ts:99-115 | no rectangle with the raster's aspect ratio that fits inside the margins is larger than the placed one |
| PageFit.WideRasterOnA4 | src/app/app.component.ts:99-118 | a 400 x 200 raster on a 210 x 297 page is placed at (10, 101) with size 190 x 95 |
| Export.Apply | src/app/app.component.ts:103-123 | only `addPage` changes the number of pages, and it adds exactly one |
| Export.AddPageAppendsEmptyPage | src/app/app.component.ts:102-104 | `addPage` appends one empty page and leaves the earlier pages and the saved names alone |
| Export.AddImageDrawsOnLastPage | src/app/app.component.ts:120 | `addImage` adds the placement to the last page only, after what is already there |
| Export.NextImageGetsItsOwnPage | src/app/app.component.ts:95-121 | one image per page is kept: the first image goes on the initial page and each later image on a page added just for it |
| Export.ExportToPdf | src/app/app.component.ts:91-124 | for `n` canvases, `addPage` is called `n - 1` times (never for the first); the document has one page per canvas (one empty page for none), page i holds exactly the placement of canvas i, and it is saved once as `split-image.pdf` |

## Left out

- Image loading: `FileReader`, image decoding, the `setTimeout(…, 500)` that
  triggers the split in `onFileSelected`, and `readerOnLoad`
  (src/app/app.component.ts:50-58, 126-135). These are asynchronous browser
  I/O. In the model, `AppComponent.image` is either absent or a pair of pixel
  dimensions.
- The Angular wiring: `ngOnInit`, the `QueryList.changes` subscription in
  `ngAfterViewInit`, and the `form.valueChanges` subscription. `SetGrid`
  models only the body of that subscription. Canvas i is drawn with
  `imageParts[i]` (src/app/app.component.ts:44-45). That positional pairing
  is not modelled.
- `drawImagePart` (src/app/app.component.ts:81-89). It sets the canvas size
  and calls the browser's `drawImage`. Assigning a fractional render size to
  a canvas's width or height truncates it. So the raster the export sees is
  given to `ExportToPdf` directly, as the canvas's integer pixel size.
- `parseInt` (ECMA-262, section 19.2.5) in the form handler. `SetGrid` takes
  the row and column counts as already-parsed integers. A non-numeric entry
  parses to `NaN`; `row < NaN` is false (src/app/app.component.ts:67), so no
  tile is produced, exactly as for a count of zero or below. Modelling the
  counts as integers therefore loses no behaviour of the split.
- The PDF library itself (`new jsPDF`, `getImageProperties`, `toDataURL`, the
  page size). The page size and each raster's pixel size are parameters. The
  document is a value that records the placements on each page and the names
  it was saved under.
- Export.ExportToPdf: requires a page larger than twice the margin in both
  directions and canvases of positive size. The page requirement holds for
  the library's default A4 page. The canvas requirement is not guarded in the
  source: `drawImagePart` sets the canvas size from the render size
  (src/app/app.component.ts:86-87), and truncation makes it 0 when
  `image.width < 2 * numCols` or `image.height < 2 * numRows`. The empty data
  URL from line 97 then reaches `getImageProperties` at line 106, the export
  fails there and `save` at line 123 is never reached. The model does not
  cover that failure path.
- Grid.PartSize: a division by a count of 0 gives 0.0 instead of
  JavaScript's `Infinity` or `NaN`. No tile ever carries that value, because
  with a count of 0 the loops emit nothing.
- Floating-point rounding of the JavaScript divisions. All sizes are exact reals.
