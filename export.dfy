/** Exporting the preview canvases as a PDF, one canvas per page. The PDF
    library is modelled by the calls made to it and by what those calls do to
    the document: a new document has one empty page, `addPage` appends an
    empty page, `addImage` draws on the last page and `save` downloads the
    document under a name. */
module Export {
  import opened PageFit

  /** The file name the document is saved under. */
  const FileName: string := "split-image.pdf"

  /** A canvas's PNG raster: its pixel dimensions. */
  datatype Raster = Raster(width: nat, height: nat)

  /** One call into the PDF library. */
  datatype PdfCall = AddPage | AddImage(at: Placement) | Save(fileName: string)

  /** A PDF document: the images on each page, and the names it was saved under. */
  datatype Document = Document(pages: seq<seq<Placement>>, saved: seq<string>)

  /** A new document: a single empty page, never saved. */
  const NewDocument: Document := Document([[]], [])

  /** The effect of one library call on a document that has a page: only
      `addPage` changes the number of pages, by one. */
  function Apply(doc: Document, call: PdfCall): (r: Document)
    requires |doc.pages| >= 1
    ensures |r.pages| == |doc.pages| + (if call.AddPage? then 1 else 0)
  {
    match call
    case AddPage => doc.(pages := doc.pages + [[]])
    case AddImage(at) =>
      var last := |doc.pages| - 1;
      doc.(pages := doc.pages[..last] + [doc.pages[last] + [at]])
    case Save(name) => doc.(saved := doc.saved + [name])
  }

  /** `addPage` appends an empty page and leaves the rest of the document alone. */
  lemma AddPageAppendsEmptyPage(doc: Document)
    requires |doc.pages| >= 1
    ensures var r := Apply(doc, AddPage);
      && |r.pages| == |doc.pages| + 1
      && r.pages[|doc.pages|] == []
      && (forall k :: 0 <= k < |doc.pages| ==> r.pages[k] == doc.pages[k])
      && r.saved == doc.saved
  {
  }

  /** `addImage` draws on the last page only, after what is already there. */
  lemma AddImageDrawsOnLastPage(doc: Document, at: Placement)
    requires |doc.pages| >= 1
    ensures var r, last := Apply(doc, AddImage(at)), |doc.pages| - 1;
      && |r.pages| == |doc.pages|
      && r.pages[last] == doc.pages[last] + [at]
      && (forall k :: 0 <= k < last ==> r.pages[k] == doc.pages[k])
      && r.saved == doc.saved
  {
    var r, last := Apply(doc, AddImage(at)), |doc.pages| - 1;
    forall k | 0 <= k < last
      ensures r.pages[k] == doc.pages[k]
    {
      assert r.pages[k] == doc.pages[..last][k];
    }
  }

  /** `doc` holds the images at `placements` one per page, in order, and has
      not been saved: a single empty page when there are none. */
  ghost predicate OnePerPage(doc: Document, placements: seq<Placement>)
  {
    && |doc.pages| == (if placements == [] then 1 else |placements|)
    && (placements == [] ==> doc.pages == [[]])
    && (forall k :: 0 <= k < |placements| ==> doc.pages[k] == [placements[k]])
    && doc.saved == []
  }

  /** Exporting one more image keeps one image per page: on the first page
      when nothing has been placed yet, otherwise on a page added for it. */
  lemma NextImageGetsItsOwnPage(doc: Document, placements: seq<Placement>, at: Placement)
    requires OnePerPage(doc, placements)
    ensures placements == [] ==> OnePerPage(Apply(doc, AddImage(at)), placements + [at])
    ensures placements != [] ==>
      |Apply(doc, AddPage).pages| >= 1 &&
      OnePerPage(Apply(Apply(doc, AddPage), AddImage(at)), placements + [at])
  {
    var next := placements + [at];
    if placements == [] {
      AddImageDrawsOnLastPage(doc, at);
    } else {
      var paged := Apply(doc, AddPage);
      AddPageAppendsEmptyPage(doc);
      AddImageDrawsOnLastPage(paged, at);
      var r := Apply(paged, AddImage(at));
      forall k | 0 <= k < |next|
        ensures r.pages[k] == [next[k]]
      {
        if k < |placements| {
          assert r.pages[k] == paged.pages[k] == doc.pages[k];
        }
      }
    }
  }

  /** Exports the canvases in order: a new page before every canvas but the
      first, the canvas's raster fitted and centred on the current page, and
      the document saved at the end. Returns the document and the number of
      `addPage` calls: one page per canvas, the first canvas on the page the
      new document starts with, each page holding exactly its own canvas's
      placement. */
  method ExportToPdf(pageWidth: real, pageHeight: real, canvases: seq<Raster>)
    returns (pdf: Document, addPageCalls: nat)
    requires pageWidth > 2.0 * Margin && pageHeight > 2.0 * Margin
    requires forall i :: 0 <= i < |canvases| ==> canvases[i].width > 0 && canvases[i].height > 0
    ensures addPageCalls == if |canvases| == 0 then 0 else |canvases| - 1
    ensures |pdf.pages| == 1 + addPageCalls
    ensures |canvases| == 0 ==> pdf.pages == [[]]
    ensures forall i :: 0 <= i < |canvases| ==>
      pdf.pages[i] == [Place(pageWidth, pageHeight, canvases[i].width, canvases[i].height)]
    ensures pdf.saved == [FileName]
  {
    pdf, addPageCalls := NewDocument, 0;
    ghost var placed: seq<Placement> := [];
    var i := 0;
    while i < |canvases|
      invariant 0 <= i <= |canvases|
      invariant addPageCalls == if i == 0 then 0 else i - 1
      invariant |placed| == i
      invariant forall k :: 0 <= k < i ==>
        placed[k] == Place(pageWidth, pageHeight, canvases[k].width, canvases[k].height)
      invariant OnePerPage(pdf, placed)
    {
      var canvas := canvases[i];
      var placement := Place(pageWidth, pageHeight, canvas.width, canvas.height);
      NextImageGetsItsOwnPage(pdf, placed, placement);
      if i > 0 {
        pdf, addPageCalls := Apply(pdf, AddPage), addPageCalls + 1;
      }
      pdf := Apply(pdf, AddImage(placement));
      placed := placed + [placement];
      i := i + 1;
    }
    pdf := Apply(pdf, Save(FileName));
  }
}
