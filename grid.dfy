/** The grid partitioner: how an image of `width` x `height` pixels is cut into
    a `rows` x `cols` grid of tiles, each tile a source rectangle of the image
    plus the size it is rendered at (half the source rectangle).
    Sizes are exact reals; the JavaScript original uses doubles. */
module Grid {

  /** One entry of `imageParts`: the source rectangle (sx, sy, sw, sh) and the
      render size (width, height). */
  datatype ImagePart = ImagePart(sx: real, sy: real, sw: real, sh: real, width: real, height: real)

  /** The size of one grid cell along one axis: `extent / count`.
      A count of 0 would be a division by zero (Infinity or NaN in JavaScript);
      it yields 0.0 here, a value no tile ever carries, since with a count of 0
      the loops emit nothing. */
  function PartSize(extent: nat, count: int): (r: real)
    ensures count > 0 ==> r * count as real == extent as real
    ensures count > 0 ==> 0.0 <= r <= extent as real
  {
    if count == 0 then 0.0 else extent as real / count as real
  }

  /** The tile in grid cell (row, col), in closed form: one `cols`-th of the
      image wide and one `rows`-th high, offset by `col` widths and `row`
      heights, rendered at half its source size. */
  function Cell(width: nat, height: nat, rows: int, cols: int, row: int, col: int): (t: ImagePart)
    ensures t.sw == PartSize(width, cols) && t.sh == PartSize(height, rows)
    ensures t.width * 2.0 == t.sw && t.height * 2.0 == t.sh
  {
    var partWidth := PartSize(width, cols);
    var partHeight := PartSize(height, rows);
    ImagePart(col as real * partWidth, row as real * partHeight, partWidth, partHeight,
              partWidth / 2.0, partHeight / 2.0)
  }

  /** The first `n` tiles of row `row`, left to right: what the inner loop has
      pushed after `n` iterations. */
  function RowTiles(width: nat, height: nat, rows: int, cols: int, row: int, n: int): seq<ImagePart>
    decreases n
  {
    if n <= 0 then []
    else RowTiles(width, height, rows, cols, row, n - 1) + [Cell(width, height, rows, cols, row, n - 1)]
  }

  /** The tiles of the first `m` rows, row after row: what the outer loop has
      pushed after `m` iterations. */
  function GridTiles(width: nat, height: nat, rows: int, cols: int, m: int): seq<ImagePart>
    decreases m
  {
    if m <= 0 then []
    else GridTiles(width, height, rows, cols, m - 1) + RowTiles(width, height, rows, cols, m - 1, cols)
  }

  /** All tiles of the grid in row-major order: the value `imageParts` holds
      after a split. Every tile has the source size of one grid cell,
      `width / cols` by `height / rows`, and is rendered at half that size. */
  function Tiles(width: nat, height: nat, rows: int, cols: int): (r: seq<ImagePart>)
    ensures forall t | t in r ::
      && t.sw == PartSize(width, cols) && t.sh == PartSize(height, rows)
      && t.width * 2.0 == t.sw && t.height * 2.0 == t.sh
  {
    GridTilesUniform(width, height, rows, cols, rows);
    GridTiles(width, height, rows, cols, rows)
  }

  /** Every tile pushed by the loops has the source size of one grid cell and
      half that as its render size. */
  lemma {:induction false} GridTilesUniform(width: nat, height: nat, rows: int, cols: int, m: int)
    ensures forall t | t in GridTiles(width, height, rows, cols, m) ::
      && t.sw == PartSize(width, cols) && t.sh == PartSize(height, rows)
      && t.width * 2.0 == t.sw && t.height * 2.0 == t.sh
    decreases m
  {
    if m > 0 {
      GridTilesUniform(width, height, rows, cols, m - 1);
      RowTilesUniform(width, height, rows, cols, m - 1, cols);
    }
  }

  lemma {:induction false} RowTilesUniform(width: nat, height: nat, rows: int, cols: int, row: int, n: int)
    ensures forall t | t in RowTiles(width, height, rows, cols, row, n) ::
      && t.sw == PartSize(width, cols) && t.sh == PartSize(height, rows)
      && t.width * 2.0 == t.sw && t.height * 2.0 == t.sh
    decreases n
  {
    if n > 0 {
      RowTilesUniform(width, height, rows, cols, row, n - 1);
    }
  }

  /** A row of `n` tiles has `n` entries, the k-th being cell (row, k). */
  lemma {:induction false} RowTilesAt(width: nat, height: nat, rows: int, cols: int, row: int, n: nat)
    ensures |RowTiles(width, height, rows, cols, row, n)| == n
    ensures forall k :: 0 <= k < n ==>
      RowTiles(width, height, rows, cols, row, n)[k] == Cell(width, height, rows, cols, row, k)
  {
    if n > 0 {
      RowTilesAt(width, height, rows, cols, row, n - 1);
    }
  }

  /** The first `m` rows hold `m * cols` tiles. */
  lemma {:induction false} GridTilesLength(width: nat, height: nat, rows: int, cols: nat, m: nat)
    ensures |GridTiles(width, height, rows, cols, m)| == m * cols
  {
    if m > 0 {
      GridTilesLength(width, height, rows, cols, m - 1);
      RowTilesAt(width, height, rows, cols, m - 1, cols);
      assert (m - 1) * cols + cols == m * cols;
    }
  }

  /** Within the first `m` rows, the tile of cell (row, col) sits at index
      `row * cols + col`. */
  lemma {:induction false} GridTileAt(width: nat, height: nat, rows: int, cols: nat, m: nat, row: nat, col: nat)
    requires row < m && col < cols
    ensures row * cols + col < |GridTiles(width, height, rows, cols, m)|
    ensures GridTiles(width, height, rows, cols, m)[row * cols + col] == Cell(width, height, rows, cols, row, col)
  {
    var prefix := GridTiles(width, height, rows, cols, m - 1);
    var last := RowTiles(width, height, rows, cols, m - 1, cols);
    assert GridTiles(width, height, rows, cols, m) == prefix + last;
    GridTilesLength(width, height, rows, cols, m - 1);
    RowTilesAt(width, height, rows, cols, m - 1, cols);
    var index := row * cols + col;
    if row < m - 1 {
      assert index < |prefix| by {
        MulMonotone(row + 1, m - 1, cols);
        assert (row + 1) * cols == row * cols + cols;
      }
      GridTileAt(width, height, rows, cols, m - 1, row, col);
      assert (prefix + last)[index] == prefix[index];
    } else {
      assert index == |prefix| + col;
      assert (prefix + last)[index] == last[col];
    }
  }

  lemma MulMonotone(a: nat, b: nat, c: nat)
    requires a <= b
    ensures a * c <= b * c
  {
    assert b * c == a * c + (b - a) * c;
  }

  /** Splitting yields exactly `rows * cols` tiles when both counts are
      positive and none otherwise. */
  lemma TilesCount(width: nat, height: nat, rows: int, cols: int)
    ensures |Tiles(width, height, rows, cols)| == if rows > 0 && cols > 0 then rows * cols else 0
  {
    if rows <= 0 {
    } else if cols <= 0 {
      NoColumnsNoTiles(width, height, rows, cols, rows);
    } else {
      GridTilesLength(width, height, rows, cols, rows);
    }
  }

  /** With no columns, no row contributes a tile. */
  lemma {:induction false} NoColumnsNoTiles(width: nat, height: nat, rows: int, cols: int, m: int)
    requires cols <= 0
    ensures GridTiles(width, height, rows, cols, m) == []
    decreases m
  {
    if m > 0 {
      NoColumnsNoTiles(width, height, rows, cols, m - 1);
    }
  }

  /** Row-major order and the shape of every tile: the entry at index
      `row * cols + col` starts at column offset `col * sw` and row offset
      `row * sh`, its source size is `width / cols` by `height / rows`, and it
      is rendered at half that size. */
  lemma TileAt(width: nat, height: nat, rows: int, cols: int, row: int, col: int)
    requires 0 <= row < rows && 0 <= col < cols
    ensures row * cols + col < |Tiles(width, height, rows, cols)|
    ensures var t := Tiles(width, height, rows, cols)[row * cols + col];
      && t.sw * cols as real == width as real
      && t.sh * rows as real == height as real
      && t.sx == col as real * t.sw
      && t.sy == row as real * t.sh
      && t.width * 2.0 == t.sw
      && t.height * 2.0 == t.sh
  {
    GridTileAt(width, height, rows, cols, rows, row, col);
  }

  /** Tiles within a row are contiguous: column `col + 1` starts where column
      `col` ends, at the same row offset. */
  lemma ColumnsContiguous(width: nat, height: nat, rows: int, cols: int, row: int, col: int)
    requires 0 <= row < rows && 0 <= col && col + 1 < cols
    ensures row * cols + col + 1 < |Tiles(width, height, rows, cols)|
    ensures var ts := Tiles(width, height, rows, cols);
      var t, next := ts[row * cols + col], ts[row * cols + col + 1];
      next.sx == t.sx + t.sw && next.sy == t.sy
  {
    GridTileAt(width, height, rows, cols, rows, row, col);
    GridTileAt(width, height, rows, cols, rows, row, col + 1);
    OneMorePart(col + 1, PartSize(width, cols));
  }

  /** Tiles within a column are contiguous: row `row + 1` starts where row
      `row` ends, at the same column offset. */
  lemma RowsContiguous(width: nat, height: nat, rows: int, cols: int, row: int, col: int)
    requires 0 <= row && row + 1 < rows && 0 <= col < cols
    ensures (row + 1) * cols + col < |Tiles(width, height, rows, cols)|
    ensures var ts := Tiles(width, height, rows, cols);
      var t, below := ts[row * cols + col], ts[(row + 1) * cols + col];
      below.sy == t.sy + t.sh && below.sx == t.sx
  {
    GridTileAt(width, height, rows, cols, rows, row, col);
    GridTileAt(width, height, rows, cols, rows, row + 1, col);
    OneMorePart(row + 1, PartSize(height, rows));
  }

  /** The columns of every row cover the image width: the first starts at 0
      and the last ends at the image width. */
  lemma ColumnsCoverWidth(width: nat, height: nat, rows: int, cols: int, row: int)
    requires 0 <= row < rows && cols > 0
    ensures row * cols + cols - 1 < |Tiles(width, height, rows, cols)|
    ensures var ts := Tiles(width, height, rows, cols);
      && ts[row * cols].sx == 0.0
      && ts[row * cols + cols - 1].sx + ts[row * cols + cols - 1].sw == width as real
  {
    TileAt(width, height, rows, cols, row, 0);
    TileAt(width, height, rows, cols, row, cols - 1);
    OneMorePart(cols, PartSize(width, cols));
  }

  /** The rows of every column cover the image height: the first starts at 0
      and the last ends at the image height. */
  lemma RowsCoverHeight(width: nat, height: nat, rows: int, cols: int, col: int)
    requires rows > 0 && 0 <= col < cols
    ensures (rows - 1) * cols + col < |Tiles(width, height, rows, cols)|
    ensures var ts := Tiles(width, height, rows, cols);
      && ts[col].sy == 0.0
      && ts[(rows - 1) * cols + col].sy + ts[(rows - 1) * cols + col].sh == height as real
  {
    TileAt(width, height, rows, cols, 0, col);
    TileAt(width, height, rows, cols, rows - 1, col);
    OneMorePart(rows, PartSize(height, rows));
  }

  /** Sum of the source widths of a sequence of tiles. */
  function WidthSum(parts: seq<ImagePart>): real
  {
    if parts == [] then 0.0 else WidthSum(parts[..|parts| - 1]) + parts[|parts| - 1].sw
  }

  lemma {:induction false} RowWidthSumPrefix(width: nat, height: nat, rows: int, cols: int, row: int, n: nat)
    ensures WidthSum(RowTiles(width, height, rows, cols, row, n)) == n as real * PartSize(width, cols)
  {
    if n > 0 {
      var ts := RowTiles(width, height, rows, cols, row, n);
      var prev := RowTiles(width, height, rows, cols, row, n - 1);
      assert ts == prev + [Cell(width, height, rows, cols, row, n - 1)];
      assert ts[..|ts| - 1] == prev;
      RowWidthSumPrefix(width, height, rows, cols, row, n - 1);
      OneMorePart(n, PartSize(width, cols));
    }
  }

  /** `n` parts are `n - 1` parts and one more. */
  lemma OneMorePart(n: nat, part: real)
    requires n > 0
    ensures (n - 1) as real * part + part == n as real * part
  {
  }

  /** The source widths of the tiles of any row of the split add up to the
      image width. */
  lemma RowWidthSum(width: nat, height: nat, rows: int, cols: int, row: int)
    requires 0 <= row < rows && cols > 0
    ensures (row + 1) * cols <= |Tiles(width, height, rows, cols)|
    ensures WidthSum(Tiles(width, height, rows, cols)[row * cols .. (row + 1) * cols]) == width as real
  {
    var ts := Tiles(width, height, rows, cols);
    TilesCount(width, height, rows, cols);
    MulMonotone(row + 1, rows, cols);
    assert (row + 1) * cols == row * cols + cols;
    var slice := ts[row * cols .. (row + 1) * cols];
    var built := RowTiles(width, height, rows, cols, row, cols);
    RowTilesAt(width, height, rows, cols, row, cols);
    forall k | 0 <= k < cols
      ensures slice[k] == built[k]
    {
      GridTileAt(width, height, rows, cols, rows, row, k);
    }
    assert slice == built;
    RowWidthSumPrefix(width, height, rows, cols, row, cols);
  }

  /** Sum of the source heights of the first `n` tiles of column `col` in a
      row-major list of tiles `cols` wide. */
  function ColumnHeightSum(ts: seq<ImagePart>, cols: nat, col: nat, n: nat): real
    requires col < cols && n * cols <= |ts|
    decreases n
  {
    if n == 0 then 0.0
    else
      assert n * cols == (n - 1) * cols + cols;
      ColumnHeightSum(ts, cols, col, n - 1) + ts[(n - 1) * cols + col].sh
  }

  /** The first `n` rows of the split are all there. */
  lemma FirstRowsFit(width: nat, height: nat, rows: int, cols: int, n: nat)
    requires cols > 0 && n <= rows
    ensures n * cols <= |Tiles(width, height, rows, cols)|
  {
    TilesCount(width, height, rows, cols);
    MulMonotone(n, rows, cols);
  }

  lemma {:induction false} ColumnHeightSumPrefix(width: nat, height: nat, rows: int, cols: int, col: int, n: nat)
    requires 0 <= col < cols && n <= rows
    ensures n * cols <= |Tiles(width, height, rows, cols)|
    ensures ColumnHeightSum(Tiles(width, height, rows, cols), cols, col, n) == n as real * PartSize(height, rows)
  {
    var ts := Tiles(width, height, rows, cols);
    FirstRowsFit(width, height, rows, cols, n);
    if n > 0 {
      ColumnHeightSumPrefix(width, height, rows, cols, col, n - 1);
      assert ts[(n - 1) * cols + col] in ts;
      OneMorePart(n, PartSize(height, rows));
    }
  }

  /** The source heights of the tiles of any column of the split add up to the
      image height. */
  lemma ColumnHeightSumIsHeight(width: nat, height: nat, rows: int, cols: int, col: int)
    requires rows > 0 && 0 <= col < cols
    ensures |Tiles(width, height, rows, cols)| == rows * cols
    ensures ColumnHeightSum(Tiles(width, height, rows, cols), cols, col, rows) == height as real
  {
    TilesCount(width, height, rows, cols);
    ColumnHeightSumPrefix(width, height, rows, cols, col, rows);
  }

  /** A 1 x 1 grid yields the whole image as its only tile, rendered at half
      its width and height. */
  lemma SingleTile(width: nat, height: nat)
    ensures Tiles(width, height, 1, 1) ==
      [ImagePart(0.0, 0.0, width as real, height as real, width as real / 2.0, height as real / 2.0)]
  {
    assert RowTiles(width, height, 1, 1, 0, 1) == [Cell(width, height, 1, 1, 0, 0)];
  }
}
