/** Placing one tile's raster on a PDF page: the largest rectangle with the
    raster's aspect ratio that fits the printable area (the page less a fixed
    margin on every side), centred on the page. Exact reals stand in for the
    JavaScript doubles. */
module PageFit {

  /** The margin kept free on every edge of a page, in page units. */
  const Margin: real := 10.0

  datatype Size = Size(width: real, height: real)

  /** Where an image lands on a page: top-left corner and size. */
  datatype Placement = Placement(x: real, y: real, width: real, height: real)

  /** The largest size with aspect ratio `imageRatio` (width / height) inside a
      `pdfWidth` x `pdfHeight` area: when the area is relatively wider than
      the image, the height binds; otherwise the width binds. */
  function FitToArea(pdfWidth: real, pdfHeight: real, imageRatio: real): (r: Size)
    requires pdfWidth > 0.0 && pdfHeight > 0.0 && imageRatio > 0.0
    ensures r.width == r.height * imageRatio
    ensures 0.0 < r.width <= pdfWidth && 0.0 < r.height <= pdfHeight
    ensures r.width == pdfWidth || r.height == pdfHeight
  {
    if pdfWidth / pdfHeight > imageRatio then
      Size(pdfHeight * imageRatio, pdfHeight)
    else
      Size(pdfWidth, pdfWidth / imageRatio)
  }

  /** No rectangle with the same aspect ratio that fits the area is larger
      than the fitted one, in either dimension. */
  lemma FitIsLargest(pdfWidth: real, pdfHeight: real, imageRatio: real, s: Size)
    requires pdfWidth > 0.0 && pdfHeight > 0.0 && imageRatio > 0.0
    requires s.width == s.height * imageRatio
    requires 0.0 < s.width <= pdfWidth && 0.0 < s.height <= pdfHeight
    ensures s.width <= FitToArea(pdfWidth, pdfHeight, imageRatio).width
    ensures s.height <= FitToArea(pdfWidth, pdfHeight, imageRatio).height
  {
    var r := FitToArea(pdfWidth, pdfHeight, imageRatio);
    if r.height == pdfHeight {
      assert s.height <= r.height;
      assert s.height * imageRatio <= r.height * imageRatio;
    } else {
      assert r.width == pdfWidth;
      assert s.width <= r.width;
      assert s.height * imageRatio <= r.height * imageRatio;
    }
  }

  /** Page-fit and centring of one raster of `imageWidth` x `imageHeight`
      pixels on a `pageWidth` x `pageHeight` page. */
  function Place(pageWidth: real, pageHeight: real, imageWidth: nat, imageHeight: nat): (p: Placement)
    requires pageWidth > 2.0 * Margin && pageHeight > 2.0 * Margin
    requires imageWidth > 0 && imageHeight > 0
    // the raster keeps its aspect ratio
    ensures p.width * imageHeight as real == p.height * imageWidth as real
    // the raster fits the printable area and fills it along one axis
    ensures 0.0 < p.width <= pageWidth - 2.0 * Margin && 0.0 < p.height <= pageHeight - 2.0 * Margin
    ensures p.width == pageWidth - 2.0 * Margin || p.height == pageHeight - 2.0 * Margin
    // it is centred: equal gaps left and right, top and bottom, each at least the margin
    ensures p.x == pageWidth - p.x - p.width && p.x >= Margin
    ensures p.y == pageHeight - p.y - p.height && p.y >= Margin
  {
    var pdfWidth := pageWidth - 2.0 * Margin;
    var pdfHeight := pageHeight - 2.0 * Margin;
    var imageRatio := imageWidth as real / imageHeight as real;
    var render := FitToArea(pdfWidth, pdfHeight, imageRatio);
    Placement((pageWidth - render.width) / 2.0, (pageHeight - render.height) / 2.0,
              render.width, render.height)
  }

  /** The placement is the largest centred one: any size with the raster's
      aspect ratio that fits the printable area is no larger. */
  lemma PlaceIsLargest(pageWidth: real, pageHeight: real, imageWidth: nat, imageHeight: nat, s: Size)
    requires pageWidth > 2.0 * Margin && pageHeight > 2.0 * Margin
    requires imageWidth > 0 && imageHeight > 0
    requires s.width * imageHeight as real == s.height * imageWidth as real
    requires 0.0 < s.width <= pageWidth - 2.0 * Margin && 0.0 < s.height <= pageHeight - 2.0 * Margin
    ensures s.width <= Place(pageWidth, pageHeight, imageWidth, imageHeight).width
    ensures s.height <= Place(pageWidth, pageHeight, imageWidth, imageHeight).height
  {
    var imageRatio := imageWidth as real / imageHeight as real;
    assert s.width == s.height * imageRatio by {
      assert imageRatio * imageHeight as real == imageWidth as real;
      assert s.width * imageHeight as real == s.height * imageRatio * imageHeight as real;
    }
    FitIsLargest(pageWidth - 2.0 * Margin, pageHeight - 2.0 * Margin, imageRatio, s);
  }

  /** An A4 page (210 x 297) and a 400 x 200 raster: the width binds, so the
      raster is drawn at 190 x 95, ten units from the left edge and 101 from
      the top. */
  lemma WideRasterOnA4()
    ensures Place(210.0, 297.0, 400, 200) == Placement(10.0, 101.0, 190.0, 95.0)
  {
  }
}
