/** The state of the application component that the grid partitioner reads
    and rebuilds: the loaded image, the grid configuration and the list of
    tiles the preview canvases are drawn from. */
module App {
  import opened Grid

  /** A decoded image: its pixel dimensions. */
  datatype Image = Image(width: nat, height: nat)

  datatype Option<T> = None | Some(value: T)

  class AppComponent {
    var image: Option<Image>
    var numRows: int
    var numCols: int
    var imageParts: seq<ImagePart>

    /** A freshly created component: no image, a 2 x 2 grid, no tiles. */
    constructor ()
      ensures image == None && numRows == 2 && numCols == 2 && imageParts == []
    {
      image := None;
      numRows := 2;
      numCols := 2;
      imageParts := [];
    }

    /** Rebuilds `imageParts` from the current image and grid. Without an
        image nothing changes; with one, the previous tiles are discarded and
        replaced by the grid's tiles in row-major order. */
    method SplitImage()
      modifies this`imageParts
      ensures old(image).None? ==> imageParts == old(imageParts)
      ensures old(image).Some? ==>
        imageParts == Tiles(image.value.width, image.value.height, numRows, numCols)
    {
      if image.None? {
        return;
      }
      var img, rows, cols := image.value, numRows, numCols;
      var partWidth := PartSize(img.width, cols);
      var partHeight := PartSize(img.height, rows);
      imageParts := [];

      var row := 0;
      while row < rows
        invariant 0 <= row && (row <= rows || row == 0)
        invariant imageParts == GridTiles(img.width, img.height, rows, cols, row)
      {
        var col := 0;
        while col < cols
          invariant 0 <= col && (col <= cols || col == 0)
          invariant imageParts == GridTiles(img.width, img.height, rows, cols, row)
                                  + RowTiles(img.width, img.height, rows, cols, row, col)
        {
          assert Cell(img.width, img.height, rows, cols, row, col) ==
            ImagePart(col as real * partWidth, row as real * partHeight, partWidth, partHeight,
                      partWidth / 2.0, partHeight / 2.0);
          imageParts := imageParts + [ImagePart(col as real * partWidth, row as real * partHeight,
                                                partWidth, partHeight,
                                                partWidth / 2.0, partHeight / 2.0)];
          col := col + 1;
        }
        assert RowTiles(img.width, img.height, rows, cols, row, col)
            == RowTiles(img.width, img.height, rows, cols, row, cols);
        row := row + 1;
      }
    }

    /** The grid form changed: store the new (already parsed) row and column
        counts and split again. */
    method SetGrid(rows: int, cols: int)
      modifies this`numRows, this`numCols, this`imageParts
      ensures numRows == rows && numCols == cols
      ensures old(image).None? ==> imageParts == old(imageParts)
      ensures old(image).Some? ==> imageParts == Tiles(image.value.width, image.value.height, rows, cols)
    {
      numRows := rows;
      numCols := cols;
      SplitImage();
    }
  }
}
