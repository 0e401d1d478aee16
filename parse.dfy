/** Highlight extraction of `rmrf.parse`: every page file of a document is
    scanned block by block; text selections become text records, strokes
    over PDF words become cropped-image records, and the remaining strokes of
    a page become one drawing record; the records are then sorted by page.

    The PDF is seen through two parameters: the page a page index opens
    (`None` when the index is not in the document) and the word boxes found
    inside a clip rectangle. The palette used for colour fallback belongs to
    the external `rmc` exporter and is a parameter too. Image and SVG files
    are not written: an image record holds the crop it renders and a
    drawing record the strokes it renders. */
module Parse {
  import opened Common
  import Seqs
  import Scene
  import Meta
  import Fs
  import H = Hierarchy
  import WT = WritingTools
  import Strings

  /** A word box `(x0, y0, x1, y1, ...)` of `page.get_text("words")`. */
  datatype Word = Word(x0: real, y0: real, x1: real, y1: real)

  /** A rectangle given by its corners, as `fitz.Rect(x0, y0, x1, y1)`. */
  datatype Box = Box(x0: real, y0: real, x1: real, y1: real)

  datatype PdfPage = PdfPage(width: real, height: real)

  /** An opened PDF: `doc[i]`, and `get_text("words", clip=rect)` on page
      `i`. */
  datatype Pdf = Pdf(page: int -> Option<PdfPage>, words: (int, Box) -> seq<Word>)

  /** The tuples `extract_highlights` returns. */
  datatype Record =
    | TextRecord(page: int, text: string, color: Rgba)
    | ImageRecord(page: int, crop: Box)
    | DrawingRecord(pageIndex: Option<int>, strokes: seq<Stroke>)

  /** The first component of a record, the sort key. */
  function Key(r: Record): Option<int> {
    match r
    case TextRecord(p, _, _) => Some(p)
    case ImageRecord(p, _) => Some(p)
    case DrawingRecord(p, _) => p
  }

  /** The sort key with an unknown page read as -1. */
  function NormKey(r: Record): int {
    if Key(r).Some? then Key(r).value else -1
  }

  // ---------------------------------------------------------------------
  // get_color

  /** The four trailing bytes that encode a colour: b, g, r, a. */
  function ColorBytes(c: Rgba): seq<Byte> {
    [c.2, c.1, c.0, c.3]
  }

  /** `get_color(block)`: the last four raw bytes when there are at least
      five, otherwise the palette colour of the item's value, opaque. */
  function GetColor(block: Scene.Block, palette: Scene.PenColor -> Option<WT.Rgb>): (r: Result<Rgba, Error>)
    requires block.LineBlock? || block.GlyphBlock?
    ensures |block.extraData| < 5 && r.Success? ==> r.value.3 == 255
    ensures r.Failure? <==> |block.extraData| < 5 && (ValueColor(block).None? || palette(ValueColor(block).value).None?)
    ensures r.Failure? ==> r.error == if ValueColor(block).None? then AttributeError("color") else KeyError("color")
  {
    var e := block.extraData;
    if |e| >= 5 then Success((e[|e| - 2], e[|e| - 3], e[|e| - 4], e[|e| - 1]))
    else
      var c := ValueColor(block);
      if c.None? then Failure(AttributeError("color"))
      else if palette(c.value).None? then Failure(KeyError("color"))
      else
        var rgb := palette(c.value).value;
        Success((rgb.r, rgb.g, rgb.b, 255))
  }

  /** `block.item.value.color`, absent when the item has no value. */
  function ValueColor(block: Scene.Block): Option<Scene.PenColor>
    requires block.LineBlock? || block.GlyphBlock?
  {
    match block
    case LineBlock(_, line, _) => if line.Some? then Some(line.value.color) else None
    case GlyphBlock(_, glyph, _) => if glyph.Some? then Some(glyph.value.color) else None
  }

  /** A colour written as its four trailing bytes after at least one other
      byte is read back as itself. */
  lemma GetColorRoundTrip(block: Scene.Block, palette: Scene.PenColor -> Option<WT.Rgb>, prefix: seq<Byte>, c: Rgba)
    requires block.LineBlock? || block.GlyphBlock?
    requires |prefix| >= 1 && block.extraData == prefix + ColorBytes(c)
    ensures GetColor(block, palette) == Success(c)
  {
    var e := block.extraData;
    assert e[|e| - 4..] == ColorBytes(c);
  }

  /** With five bytes or more, the colour read encodes back to the trailing
      four bytes. */
  lemma GetColorBytes(block: Scene.Block, palette: Scene.PenColor -> Option<WT.Rgb>)
    requires block.LineBlock? || block.GlyphBlock?
    requires |block.extraData| >= 5
    ensures GetColor(block, palette).Success?
    ensures ColorBytes(GetColor(block, palette).value) == block.extraData[|block.extraData| - 4..]
  {
  }

  /** Without five bytes, the colour is the palette's, opaque. */
  lemma GetColorPalette(block: Scene.Block, palette: Scene.PenColor -> Option<WT.Rgb>)
    requires block.LineBlock? || block.GlyphBlock?
    requires |block.extraData| < 5 && ValueColor(block).Some? && palette(ValueColor(block).value).Some?
    ensures var rgb := palette(ValueColor(block).value).value;
      GetColor(block, palette) == Success((rgb.r, rgb.g, rgb.b, 255))
  {
  }

  // ---------------------------------------------------------------------
  // The crop rectangle

  function X0s(words: seq<Word>): (xs: seq<real>)
    ensures |xs| == |words| && forall i :: 0 <= i < |words| ==> xs[i] == words[i].x0
  {
    seq(|words|, i requires 0 <= i < |words| => words[i].x0)
  }

  function Y0s(words: seq<Word>): (ys: seq<real>)
    ensures |ys| == |words| && forall i :: 0 <= i < |words| ==> ys[i] == words[i].y0
  {
    seq(|words|, i requires 0 <= i < |words| => words[i].y0)
  }

  function X1s(words: seq<Word>): (xs: seq<real>)
    ensures |xs| == |words| && forall i :: 0 <= i < |words| ==> xs[i] == words[i].x1
  {
    seq(|words|, i requires 0 <= i < |words| => words[i].x1)
  }

  function Y1s(words: seq<Word>): (ys: seq<real>)
    ensures |ys| == |words| && forall i :: 0 <= i < |words| ==> ys[i] == words[i].y1
  {
    seq(|words|, i requires 0 <= i < |words| => words[i].y1)
  }

  const Margin := 3.0

  /** The word-snapped crop: the words' bounding box widened by the margin
      and clamped to the page. It lies inside the page and covers every
      word box, as far as the page reaches. */
  function Crop(words: seq<Word>, pageWidth: int, pageHeight: int): (b: Box)
    requires words != []
    ensures 0.0 <= b.x0 && b.x1 <= pageWidth as real
    ensures 0.0 <= b.y0 && b.y1 <= pageHeight as real
    ensures forall w :: w in words ==>
      b.x0 <= Max(w.x0 - Margin, 0.0) && b.y0 <= Max(w.y0 - Margin, 0.0) &&
      Min(w.x1 + Margin, pageWidth as real) <= b.x1 && Min(w.y1 + Margin, pageHeight as real) <= b.y1
    ensures exists w :: w in words && b.x0 == Max(w.x0 - Margin, 0.0)
    ensures exists w :: w in words && b.x1 == Min(w.x1 + Margin, pageWidth as real)
  {
    Box(Max(Seqs.MinOf(X0s(words)) - Margin, 0.0),
        Max(Seqs.MinOf(Y0s(words)) - Margin, 0.0),
        Min(Seqs.MaxOf(X1s(words)) + Margin, pageWidth as real),
        Min(Seqs.MaxOf(Y1s(words)) + Margin, pageHeight as real))
  }

  // ---------------------------------------------------------------------
  // One block

  /** A stroke kept for the drawing of its page, with the colour
      `get_color` read for it: the colour line 203 of the source means to
      write onto the stroke. */
  datatype Stroke = Stroke(block: Scene.Block, color: Rgba)

  /** What the scan does with one block. */
  datatype Outcome = Skip | Emit(record: Record) | Draw(stroke: Stroke)

  /** `block.item.value.text`: only a glyph's value has text. */
  function TextOf(block: Scene.Block): (r: Result<string, Error>)
    ensures r.Success? <==> block.GlyphBlock? && block.glyph.Some?
  {
    if block.GlyphBlock? && block.glyph.Some? then Success(block.glyph.value.text)
    else Failure(AttributeError("text"))
  }

  /** `block.item.value.points` of a block the scan draws: only a stroke
      with a value has points. */
  function PointsOf(block: Scene.Block): (ps: seq<Scene.Point>)
    ensures ps != [] ==> block.LineBlock? && block.line.Some? && ps == block.line.value.points
    ensures block.LineBlock? && block.line.Some? ==> ps == block.line.value.points
  {
    if block.LineBlock? && block.line.Some? then block.line.value.points else []
  }

  function Xs(ps: seq<Scene.Point>): (xs: seq<real>)
    ensures |xs| == |ps| && forall i :: 0 <= i < |ps| ==> xs[i] == ps[i].x
  {
    seq(|ps|, i requires 0 <= i < |ps| => ps[i].x)
  }

  function Ys(ps: seq<Scene.Point>): (ys: seq<real>)
    ensures |ys| == |ps| && forall i :: 0 <= i < |ps| ==> ys[i] == ps[i].y
  {
    seq(|ps|, i requires 0 <= i < |ps| => ps[i].y)
  }

  /** A non-deleted stroke or glyph block: the blocks that get past the two
      `continue`s at the head of the block loop. */
  predicate Live(block: Scene.Block) {
    (block.LineBlock? || block.GlyphBlock?) && block.deletedLength <= 0
  }

  /** A block that reaches the colour overwrite: live, not a highlight, and
      a stroke with points. */
  predicate Handwritten(block: Scene.Block) {
    Live(block) && !Fs.Node.IsHighlightBlock(block) && Fs.Node.IsHandwritingBlock(block) == Success(true)
  }

  /** No block of the page file reaches the colour overwrite. */
  predicate NoHandwriting(file: (string, seq<Scene.Block>)) {
    forall k :: 0 <= k < |file.1| ==> !Handwritten(file.1[k])
  }

  /** One pass of the block loop of `extract_highlights`, for a block of the
      page file whose page index is `pageIndex`. With `asWritten`, a text
      record gets `page_index or -1` and a handwritten stroke raises at the
      colour overwrite, since a stroke block has no `value` attribute;
      corrected, page 0 stays 0 and the stroke keeps its colour beside it. */
  function BlockOutcome(node: Fs.Node, pageIndex: Option<int>, asWritten: bool, doc: Option<Pdf>,
                        palette: Scene.PenColor -> Option<WT.Rgb>, block: Scene.Block): (r: Result<Outcome, Error>)
    ensures !Live(block) ==> r == Success(Skip)
    ensures Live(block) && Fs.Node.IsHighlightBlock(block) ==>
      r == (if TextOf(block).Failure? then Failure(AttributeError("text"))
            else Success(Emit(TextRecord(TextPage(pageIndex, asWritten), TextOf(block).value, GetColor(block, palette).value))))
    ensures Live(block) && !Fs.Node.IsHighlightBlock(block) && Fs.Node.IsHandwritingBlock(block).Failure? ==>
      r == Failure(AttributeError("points"))
    ensures Handwritten(block) && asWritten ==>
      r == if GetColor(block, palette).Failure? then Failure(GetColor(block, palette).error) else Failure(AttributeError("value"))
    ensures r.Success? && r.value.Emit? && r.value.record.TextRecord? ==> Live(block) && Fs.Node.IsHighlightBlock(block)
    ensures r.Success? && r.value.Draw? ==>
      !asWritten && Handwritten(block) && r.value.stroke.block == block && GetColor(block, palette) == Success(r.value.stroke.color) &&
      (doc.None? || pageIndex.None? || doc.value.page(pageIndex.value).Some?)
    ensures r.Success? && r.value.Emit? && r.value.record.ImageRecord? ==>
      !asWritten && Handwritten(block) && doc.Some? && pageIndex == Some(r.value.record.page)
    ensures r.Success? && r.value.Emit? ==> !r.value.record.DrawingRecord?
  {
    if !Live(block) then Success(Skip)
    else if Fs.Node.IsHighlightBlock(block) then
      var color := GetColor(block, palette).value;
      var text :- TextOf(block);
      Success(Emit(TextRecord(TextPage(pageIndex, asWritten), text, color)))
    else
      var handwriting :- Fs.Node.IsHandwritingBlock(block);
      if !handwriting then Success(Skip)
      else
        var color :- GetColor(block, palette);
        if asWritten then Failure(AttributeError("value"))
        else
          var points := PointsOf(block);
          var xMin :- node.XPercent(Seqs.MinOf(Xs(points)));
          var yMin :- node.YPercent(Seqs.MinOf(Ys(points)));
          var xMax :- node.XPercent(Seqs.MaxOf(Xs(points)));
          var yMax :- node.YPercent(Seqs.MaxOf(Ys(points)));
          if doc.None? || pageIndex.None? then Success(Draw(Stroke(block, color)))
          else if doc.value.page(pageIndex.value).None? then Failure(IndexError)
          else
            var page := doc.value.page(pageIndex.value).value;
            var pw, ph := Int(page.width), Int(page.height);
            var rect := Box(xMin * pw as real, yMin * ph as real, xMax * pw as real, yMax * ph as real);
            var words := doc.value.words(pageIndex.value, rect);
            if words != [] then Success(Emit(ImageRecord(pageIndex.value, Crop(words, pw, ph))))
            else Success(Draw(Stroke(block, color)))
  }

  // ---------------------------------------------------------------------
  // One page file

  /** The records and the leftover strokes of the blocks of one page file. */
  function FileScan(node: Fs.Node, pageIndex: Option<int>, asWritten: bool, doc: Option<Pdf>,
                    palette: Scene.PenColor -> Option<WT.Rgb>, blocks: seq<Scene.Block>): (r: Result<(seq<Record>, seq<Stroke>), Error>)
    ensures r.Success? ==> forall k :: 0 <= k < |r.value.0| ==> !r.value.0[k].DrawingRecord?
  {
    if blocks == [] then Success(([], []))
    else
      var acc :- FileScan(node, pageIndex, asWritten, doc, palette, blocks[..|blocks| - 1]);
      var o :- BlockOutcome(node, pageIndex, asWritten, doc, palette, blocks[|blocks| - 1]);
      match o
      case Skip => Success(acc)
      case Emit(rec) => Success((acc.0 + [rec], acc.1))
      case Draw(st) => Success((acc.0, acc.1 + [st]))
  }

  /** The page a text record gets: `page_index or -1` as written, which
      also sends page 0 to -1; with `asWritten` false, only an unknown page
      goes to -1. */
  function TextPage(pageIndex: Option<int>, asWritten: bool): (p: int)
    ensures pageIndex.Some? && pageIndex.value != 0 ==> p == pageIndex.value
    ensures pageIndex.None? ==> p == -1
    ensures pageIndex == Some(0) ==> p == if asWritten then -1 else 0
  {
    if pageIndex.None? then -1
    else if asWritten && pageIndex.value == 0 then -1
    else pageIndex.value
  }

  /** The records of one page file: those of its blocks, then one drawing
      record of its leftover strokes when there are any. */
  function FileOutput(node: Fs.Node, id2page: map<string, int>, doc: Option<Pdf>,
                      palette: Scene.PenColor -> Option<WT.Rgb>, file: (string, seq<Scene.Block>), asWritten: bool): (r: Result<seq<Record>, Error>)
    ensures r.Success? ==> forall k :: 0 <= k < |r.value| - 1 ==> !r.value[k].DrawingRecord?
    ensures r.Success? && |r.value| > 0 && r.value[|r.value| - 1].DrawingRecord? ==>
      r.value[|r.value| - 1].pageIndex == H.PageOfFile(id2page, file.0) && r.value[|r.value| - 1].strokes != []
  {
    var pageIndex := H.PageOfFile(id2page, file.0);
    var scan :- FileScan(node, pageIndex, asWritten, doc, palette, file.1);
    Success(scan.0 + (if scan.1 != [] then [DrawingRecord(pageIndex, scan.1)] else []))
  }

  /** The records of the page files, file by file. As written they are all
      text records. */
  function AllRecords(node: Fs.Node, id2page: map<string, int>, doc: Option<Pdf>,
                      palette: Scene.PenColor -> Option<WT.Rgb>, files: seq<(string, seq<Scene.Block>)>, asWritten: bool): Result<seq<Record>, Error>
  {
    if files == [] then Success([])
    else
      var recs :- AllRecords(node, id2page, doc, palette, files[..|files| - 1], asWritten);
      var out :- FileOutput(node, id2page, doc, palette, files[|files| - 1], asWritten);
      Success(recs + out)
  }

  /** The PDF is consulted only for PDF and EPUB documents; reading the
      file type raises when the metadata has none. */
  function DocOf(md: Meta.Metadata, pdf: Option<Pdf>): (r: Result<Option<Pdf>, Error>)
    ensures r.Failure? <==> md.fileType.None?
    ensures r.Success? && r.value.Some? ==> md.fileType == Some("pdf") || md.fileType == Some("epub")
  {
    var ft :- Meta.FileType(md);
    Success(if ft == "pdf" || ft == "epub" then pdf else None)
  }

  /** `sorted(highlights, key=lambda x: x[0])` as written: two or more
      records, one of them without a page index, make the sort compare
      `None` and raise. */
  function SortAsWritten(recs: seq<Record>): (r: Result<seq<Record>, Error>)
    ensures r.Failure? <==> |recs| >= 2 && exists k :: 0 <= k < |recs| && Key(recs[k]).None?
  {
    if |recs| >= 2 && exists k :: 0 <= k < |recs| && Key(recs[k]).None? then Failure(TypeError)
    else Success(Seqs.SortBy(recs, NormKey))
  }

  /** `extract_highlights(node)` as written; `files` are the decoded page
      files of the document's directory, `None` when there is none, and
      `pdf` the document's PDF when it exists. Since every handwritten
      stroke raises, a successful run returns text records only, and the
      final sort never meets a `None`. */
  function ExtractAsWritten(node: Fs.Node, id2page: map<string, int>, files: Option<seq<(string, seq<Scene.Block>)>>,
                            pdf: Option<Pdf>, palette: Scene.PenColor -> Option<WT.Rgb>): (r: Result<seq<Record>, Error>)
    ensures files.None? ==> r == Success([])
    ensures r.Failure? <==> (files.Some? &&
      (node.metadata.fileType.None? || AllRecords(node, id2page, DocOf(node.metadata, pdf).value, palette, files.value, true).Failure?))
    ensures r.Success? ==> forall k :: 0 <= k < |r.value| ==> r.value[k].TextRecord?
  {
    if files.None? then Success([])
    else
      var doc :- DocOf(node.metadata, pdf);
      var recs :- AllRecords(node, id2page, doc, palette, files.value, true);
      AllRecordsAsWritten(node, id2page, doc, palette, files.value);
      TextsSort(recs);
      SortAsWritten(recs)
  }

  /** As written, the records of the page files are all text records. */
  lemma {:induction false} AllRecordsAsWritten(node: Fs.Node, id2page: map<string, int>, doc: Option<Pdf>,
                                               palette: Scene.PenColor -> Option<WT.Rgb>, files: seq<(string, seq<Scene.Block>)>)
    requires AllRecords(node, id2page, doc, palette, files, true).Success?
    ensures var recs := AllRecords(node, id2page, doc, palette, files, true).value;
      forall k :: 0 <= k < |recs| ==> recs[k].TextRecord?
    decreases |files|
  {
    if files != [] {
      var init, f := files[..|files| - 1], files[|files| - 1];
      AllRecordsAsWritten(node, id2page, doc, palette, init);
      FileOutputAsWritten(node, id2page, doc, palette, f);
      var recs0 := AllRecords(node, id2page, doc, palette, init, true).value;
      var out := FileOutput(node, id2page, doc, palette, f, true).value;
      assert AllRecords(node, id2page, doc, palette, files, true) == Success(recs0 + out);
      TextsConcat(recs0, out);
    }
  }

  /** As written, the records of a page file that scans without error are
      all text records. */
  lemma FileOutputAsWritten(node: Fs.Node, id2page: map<string, int>, doc: Option<Pdf>,
                            palette: Scene.PenColor -> Option<WT.Rgb>, file: (string, seq<Scene.Block>))
    requires FileOutput(node, id2page, doc, palette, file, true).Success?
    ensures var out := FileOutput(node, id2page, doc, palette, file, true).value;
      forall k :: 0 <= k < |out| ==> out[k].TextRecord?
  {
    var pageIndex := H.PageOfFile(id2page, file.0);
    FileScanAsWritten(node, pageIndex, doc, palette, file.1);
    var scan := FileScan(node, pageIndex, true, doc, palette, file.1).value;
    assert scan.0 + [] == scan.0;
  }

  /** Two runs of text records make one. */
  lemma TextsConcat(a: seq<Record>, b: seq<Record>)
    requires forall k :: 0 <= k < |a| ==> a[k].TextRecord?
    requires forall k :: 0 <= k < |b| ==> b[k].TextRecord?
    ensures forall k :: 0 <= k < |a + b| ==> (a + b)[k].TextRecord?
  {
    forall k | 0 <= k < |a + b| ensures (a + b)[k].TextRecord? {
      if k < |a| { assert (a + b)[k] == a[k]; } else { assert (a + b)[k] == b[k - |a|]; }
    }
  }

  /** As written, a successful scan of a page file holds text records only
      and no stroke: every handwritten stroke raises before it is drawn or
      cropped. */
  lemma {:induction false} FileScanAsWritten(node: Fs.Node, pageIndex: Option<int>, doc: Option<Pdf>,
                                             palette: Scene.PenColor -> Option<WT.Rgb>, blocks: seq<Scene.Block>)
    requires FileScan(node, pageIndex, true, doc, palette, blocks).Success?
    ensures var scan := FileScan(node, pageIndex, true, doc, palette, blocks).value;
      scan.1 == [] && forall k :: 0 <= k < |scan.0| ==> scan.0[k].TextRecord?
    decreases |blocks|
  {
    if blocks != [] {
      var init := blocks[..|blocks| - 1];
      FileScanAsWritten(node, pageIndex, doc, palette, init);
      var acc := FileScan(node, pageIndex, true, doc, palette, init).value;
      var o := BlockOutcome(node, pageIndex, true, doc, palette, blocks[|blocks| - 1]).value;
      if o.Emit? {
        var hs := acc.0 + [o.record];
        assert forall k :: 0 <= k < |hs| ==> hs[k] == if k < |acc.0| then acc.0[k] else o.record;
      }
    }
  }

  /** Text records sort as written without raising, into text records. */
  lemma TextsSort(recs: seq<Record>)
    requires forall k :: 0 <= k < |recs| ==> recs[k].TextRecord?
    ensures SortAsWritten(recs).Success?
    ensures forall k :: 0 <= k < |SortAsWritten(recs).value| ==> SortAsWritten(recs).value[k].TextRecord?
  {
    var sorted := Seqs.SortBy(recs, NormKey);
    forall k | 0 <= k < |sorted| ensures sorted[k].TextRecord? {
      Seqs.SortByMembers(recs, NormKey, sorted[k]);
    }
  }

  /** `extract_highlights(node)` with the three corrections: a text record
      on page 0 keeps page 0, a handwritten stroke is kept with its colour
      instead of raising, and records without a page index sort as -1. */
  function Extract(node: Fs.Node, id2page: map<string, int>, files: Option<seq<(string, seq<Scene.Block>)>>,
                   pdf: Option<Pdf>, palette: Scene.PenColor -> Option<WT.Rgb>): (r: Result<seq<Record>, Error>)
    ensures files.None? ==> r == Success([])
    ensures r.Failure? <==> (files.Some? &&
      (node.metadata.fileType.None? || AllRecords(node, id2page, DocOf(node.metadata, pdf).value, palette, files.value, false).Failure?))
    ensures r.Success? && files.Some? ==>
      |r.value| == |AllRecords(node, id2page, DocOf(node.metadata, pdf).value, palette, files.value, false).value|
  {
    if files.None? then Success([])
    else
      var doc :- DocOf(node.metadata, pdf);
      var recs :- AllRecords(node, id2page, doc, palette, files.value, false);
      Success(Seqs.SortBy(recs, NormKey))
  }

  // ---------------------------------------------------------------------
  // The loops

  /** `extract_highlights(node)`, with the corrections of `Extract`. */
  method ExtractHighlights(node: Fs.Node, files: Option<seq<(string, seq<Scene.Block>)>>, pdf: Option<Pdf>,
                           palette: Scene.PenColor -> Option<WT.Rgb>) returns (r: Result<seq<Record>, Error>)
    ensures r == Extract(node, node.id2page, files, pdf, palette)
  {
    if files.None? {
      return Success([]);
    }
    var doc := DocOf(node.metadata, pdf);
    if doc.Failure? {
      return Failure(doc.error);
    }
    ExtractIs(node, node.id2page, files.value, pdf, palette, doc.value);
    var highlights := ScanFiles(node, doc.value, palette, files.value);
    if highlights.Failure? {
      return Failure(highlights.error);
    }
    return Success(Seqs.SortBy(highlights.value, NormKey));
  }

  /** The loop over the page files: the records of each file in turn, or
      the first error. */
  method ScanFiles(node: Fs.Node, doc: Option<Pdf>, palette: Scene.PenColor -> Option<WT.Rgb>, fs: seq<(string, seq<Scene.Block>)>)
    returns (r: Result<seq<Record>, Error>)
    ensures r == AllRecords(node, node.id2page, doc, palette, fs, false)
  {
    var highlights := [];
    for i := 0 to |fs|
      invariant AllRecords(node, node.id2page, doc, palette, fs[..i], false) == Success(highlights)
    {
      assert fs[..i + 1][..i] == fs[..i];
      var out := ScanFile(node, doc, palette, fs[i]);
      if out.Failure? {
        AllRecordsFailureStays(node, node.id2page, doc, palette, fs, i + 1, false);
        return Failure(out.error);
      }
      highlights := highlights + out.value;
    }
    assert fs[..|fs|] == fs;
    return Success(highlights);
  }

  /** The corrected extraction, once the PDF to consult is known. */
  lemma ExtractIs(node: Fs.Node, id2page: map<string, int>, fs: seq<(string, seq<Scene.Block>)>,
                  pdf: Option<Pdf>, palette: Scene.PenColor -> Option<WT.Rgb>, doc: Option<Pdf>)
    requires DocOf(node.metadata, pdf) == Success(doc)
    ensures var a := AllRecords(node, id2page, doc, palette, fs, false);
      Extract(node, id2page, Some(fs), pdf, palette) == if a.Success? then Success(Seqs.SortBy(a.value, NormKey)) else Failure(a.error)
  {
  }

  /** The block loop for one page file, corrected. */
  method ScanFile(node: Fs.Node, doc: Option<Pdf>, palette: Scene.PenColor -> Option<WT.Rgb>, file: (string, seq<Scene.Block>))
    returns (r: Result<seq<Record>, Error>)
    ensures r == FileOutput(node, node.id2page, doc, palette, file, false)
  {
    var pageId := Strings.Split(file.0, ".")[0];
    assert pageId == H.FileId(file.0);
    var pageIndex := if pageId in node.id2page then Some(node.id2page[pageId]) else None;
    var blocks := file.1;
    var highlights, svgBlocks := [], [];
    for i := 0 to |blocks|
      invariant FileScan(node, pageIndex, false, doc, palette, blocks[..i]) == Success((highlights, svgBlocks))
    {
      var o := BlockOutcome(node, pageIndex, false, doc, palette, blocks[i]);
      if o.Failure? {
        ScanFails(node, pageIndex, false, doc, palette, blocks, i);
        return Failure(o.error);
      }
      ScanStep(node, pageIndex, false, doc, palette, blocks, i, highlights, svgBlocks);
      match o.value
      case Skip =>
      case Emit(rec) => highlights := highlights + [rec];
      case Draw(st) => svgBlocks := svgBlocks + [st];
    }
    assert blocks[..|blocks|] == blocks;
    assert pageIndex == H.PageOfFile(node.id2page, file.0);
    FileOutputOf(node, doc, palette, file, highlights, svgBlocks);
    if svgBlocks != [] { highlights := highlights + [DrawingRecord(pageIndex, svgBlocks)]; } else { assert highlights + [] == highlights; }
    return Success(highlights);
  }

  /** One more block: its outcome extends the records or the strokes. */
  lemma ScanStep(node: Fs.Node, pageIndex: Option<int>, asWritten: bool, doc: Option<Pdf>,
                 palette: Scene.PenColor -> Option<WT.Rgb>, blocks: seq<Scene.Block>, i: nat,
                 hs: seq<Record>, ss: seq<Stroke>)
    requires i < |blocks| && FileScan(node, pageIndex, asWritten, doc, palette, blocks[..i]) == Success((hs, ss))
    requires BlockOutcome(node, pageIndex, asWritten, doc, palette, blocks[i]).Success?
    ensures FileScan(node, pageIndex, asWritten, doc, palette, blocks[..i + 1]) ==
      match BlockOutcome(node, pageIndex, asWritten, doc, palette, blocks[i]).value
      case Skip => Success((hs, ss))
      case Emit(rec) => Success((hs + [rec], ss))
      case Draw(st) => Success((hs, ss + [st]))
  {
    assert blocks[..i + 1][..i] == blocks[..i];
  }

  /** A block that fails ends the scan of its page file with its error. */
  lemma ScanFails(node: Fs.Node, pageIndex: Option<int>, asWritten: bool, doc: Option<Pdf>,
                  palette: Scene.PenColor -> Option<WT.Rgb>, blocks: seq<Scene.Block>, i: nat)
    requires i < |blocks| && FileScan(node, pageIndex, asWritten, doc, palette, blocks[..i]).Success?
    requires BlockOutcome(node, pageIndex, asWritten, doc, palette, blocks[i]).Failure?
    ensures FileScan(node, pageIndex, asWritten, doc, palette, blocks) ==
      Failure(BlockOutcome(node, pageIndex, asWritten, doc, palette, blocks[i]).error)
  {
    assert blocks[..i + 1][..i] == blocks[..i];
    FileScanFailureStays(node, pageIndex, asWritten, doc, palette, blocks, i + 1);
  }

  /** The output of a page file whose blocks scanned to `hs` and `ss`. */
  lemma FileOutputOf(node: Fs.Node, doc: Option<Pdf>, palette: Scene.PenColor -> Option<WT.Rgb>,
                     file: (string, seq<Scene.Block>), hs: seq<Record>, ss: seq<Stroke>)
    requires FileScan(node, H.PageOfFile(node.id2page, file.0), false, doc, palette, file.1) == Success((hs, ss))
    ensures FileOutput(node, node.id2page, doc, palette, file, false) ==
      Success(hs + if ss != [] then [DrawingRecord(H.PageOfFile(node.id2page, file.0), ss)] else [])
  {
  }

  lemma {:induction false} FileScanFailureStays(node: Fs.Node, pageIndex: Option<int>, asWritten: bool, doc: Option<Pdf>,
                                                palette: Scene.PenColor -> Option<WT.Rgb>, blocks: seq<Scene.Block>, n: nat)
    requires n <= |blocks| && FileScan(node, pageIndex, asWritten, doc, palette, blocks[..n]).Failure?
    ensures FileScan(node, pageIndex, asWritten, doc, palette, blocks).Failure?
    ensures FileScan(node, pageIndex, asWritten, doc, palette, blocks).error == FileScan(node, pageIndex, asWritten, doc, palette, blocks[..n]).error
    decreases |blocks| - n
  {
    if n < |blocks| {
      assert blocks[..n + 1][..n] == blocks[..n];
      FileScanFailureStays(node, pageIndex, asWritten, doc, palette, blocks, n + 1);
    } else {
      assert blocks[..n] == blocks;
    }
  }

  lemma {:induction false} AllRecordsFailureStays(node: Fs.Node, id2page: map<string, int>, doc: Option<Pdf>,
                                                  palette: Scene.PenColor -> Option<WT.Rgb>, files: seq<(string, seq<Scene.Block>)>, n: nat, asWritten: bool)
    requires n <= |files| && AllRecords(node, id2page, doc, palette, files[..n], asWritten).Failure?
    ensures AllRecords(node, id2page, doc, palette, files, asWritten).Failure?
    ensures AllRecords(node, id2page, doc, palette, files, asWritten).error == AllRecords(node, id2page, doc, palette, files[..n], asWritten).error
    decreases |files| - n
  {
    if n < |files| {
      assert files[..n + 1][..n] == files[..n];
      AllRecordsFailureStays(node, id2page, doc, palette, files, n + 1, asWritten);
    } else {
      assert files[..n] == files;
    }
  }

  // ---------------------------------------------------------------------
  // Properties

  /** The result is sorted by page, stably: for every page the records
      keep the order the files and blocks produced them in. */
  lemma ExtractSorted(node: Fs.Node, id2page: map<string, int>, files: seq<(string, seq<Scene.Block>)>,
                      pdf: Option<Pdf>, palette: Scene.PenColor -> Option<WT.Rgb>)
    requires Extract(node, id2page, Some(files), pdf, palette).Success?
    ensures var r := Extract(node, id2page, Some(files), pdf, palette).value;
      var recs := AllRecords(node, id2page, DocOf(node.metadata, pdf).value, palette, files, false).value;
      Seqs.SortedBy(r, NormKey) && forall k :: Seqs.Filter(r, NormKey, k) == Seqs.Filter(recs, NormKey, k)
  {
    var recs := AllRecords(node, id2page, DocOf(node.metadata, pdf).value, palette, files, false).value;
    Seqs.SortByCorrect(recs, NormKey);
  }

  /** The number of text records. */
  function CountTexts(recs: seq<Record>): nat {
    if recs == [] then 0 else CountTexts(recs[..|recs| - 1]) + if recs[|recs| - 1].TextRecord? then 1 else 0
  }

  /** The number of live highlight blocks. */
  function CountHighlights(blocks: seq<Scene.Block>): nat {
    if blocks == [] then 0
    else
      var b := blocks[|blocks| - 1];
      CountHighlights(blocks[..|blocks| - 1]) + if Live(b) && Fs.Node.IsHighlightBlock(b) then 1 else 0
  }

  lemma CountTextsSnoc(recs: seq<Record>, r: Record)
    ensures CountTexts(recs + [r]) == CountTexts(recs) + if r.TextRecord? then 1 else 0
  {
    assert (recs + [r])[..|recs|] == recs;
  }

  /** Each live highlight block of a page file yields exactly one text
      record, and no other block yields one. */
  lemma {:induction false} FileScanTexts(node: Fs.Node, pageIndex: Option<int>, asWritten: bool, doc: Option<Pdf>,
                                         palette: Scene.PenColor -> Option<WT.Rgb>, blocks: seq<Scene.Block>)
    requires FileScan(node, pageIndex, asWritten, doc, palette, blocks).Success?
    ensures CountTexts(FileScan(node, pageIndex, asWritten, doc, palette, blocks).value.0) == CountHighlights(blocks)
    decreases |blocks|
  {
    if blocks != [] {
      var init, b := blocks[..|blocks| - 1], blocks[|blocks| - 1];
      FileScanTexts(node, pageIndex, asWritten, doc, palette, init);
      var acc := FileScan(node, pageIndex, asWritten, doc, palette, init).value;
      var o := BlockOutcome(node, pageIndex, asWritten, doc, palette, b).value;
      var recs := FileScan(node, pageIndex, asWritten, doc, palette, blocks).value.0;
      assert (o.Emit? && o.record.TextRecord?) <==> Live(b) && Fs.Node.IsHighlightBlock(b);
      if o.Emit? {
        assert recs == acc.0 + [o.record];
        CountTextsSnoc(acc.0, o.record);
      } else {
        assert recs == acc.0;
      }
    }
  }

  /** Every record without a page index is the drawing record of a page
      file whose id is unknown. */
  lemma {:induction false} AllRecordsKeys(node: Fs.Node, id2page: map<string, int>, doc: Option<Pdf>,
                                          palette: Scene.PenColor -> Option<WT.Rgb>, files: seq<(string, seq<Scene.Block>)>, asWritten: bool)
    requires AllRecords(node, id2page, doc, palette, files, asWritten).Success?
    ensures var recs := AllRecords(node, id2page, doc, palette, files, asWritten).value;
      forall k :: 0 <= k < |recs| && Key(recs[k]).None? ==>
        exists j :: 0 <= j < |files| && H.PageOfFile(id2page, files[j].0).None?
    decreases |files|
  {
    if files != [] {
      var init := files[..|files| - 1];
      AllRecordsKeys(node, id2page, doc, palette, init, asWritten);
      var recs0 := AllRecords(node, id2page, doc, palette, init, asWritten).value;
      var out := FileOutput(node, id2page, doc, palette, files[|files| - 1], asWritten).value;
      var recs := recs0 + out;
      forall k | 0 <= k < |recs| && Key(recs[k]).None?
        ensures exists j :: 0 <= j < |files| && H.PageOfFile(id2page, files[j].0).None?
      {
        if k < |recs0| {
          assert recs[k] == recs0[k];
          var j :| 0 <= j < |init| && H.PageOfFile(id2page, init[j].0).None?;
          assert files[j] == init[j];
        } else {
          assert recs[k] == out[k - |recs0|];
          assert H.PageOfFile(id2page, files[|files| - 1].0).None?;
        }
      }
    }
  }

  /** Off page 0 and without handwriting, the code as written and the
      corrected code agree on every page file. */
  lemma {:induction false} AllRecordsAgree(node: Fs.Node, id2page: map<string, int>, doc: Option<Pdf>,
                                           palette: Scene.PenColor -> Option<WT.Rgb>, files: seq<(string, seq<Scene.Block>)>)
    requires forall j :: 0 <= j < |files| ==> H.PageOfFile(id2page, files[j].0) != Some(0) && NoHandwriting(files[j])
    ensures AllRecords(node, id2page, doc, palette, files, true) == AllRecords(node, id2page, doc, palette, files, false)
    decreases |files|
  {
    if files != [] {
      var init := files[..|files| - 1];
      assert forall j :: 0 <= j < |init| ==> init[j] == files[j];
      AllRecordsAgree(node, id2page, doc, palette, init);
      FileOutputAgrees(node, id2page, doc, palette, files[|files| - 1]);
    }
  }

  /** The same for one page file. */
  lemma FileOutputAgrees(node: Fs.Node, id2page: map<string, int>, doc: Option<Pdf>,
                         palette: Scene.PenColor -> Option<WT.Rgb>, file: (string, seq<Scene.Block>))
    requires H.PageOfFile(id2page, file.0) != Some(0) && NoHandwriting(file)
    ensures FileOutput(node, id2page, doc, palette, file, true) == FileOutput(node, id2page, doc, palette, file, false)
  {
    FileScanAgrees(node, H.PageOfFile(id2page, file.0), doc, palette, file.1);
  }

  /** The same for the blocks of one page file. */
  lemma {:induction false} FileScanAgrees(node: Fs.Node, pageIndex: Option<int>, doc: Option<Pdf>,
                                          palette: Scene.PenColor -> Option<WT.Rgb>, blocks: seq<Scene.Block>)
    requires pageIndex != Some(0) && forall k :: 0 <= k < |blocks| ==> !Handwritten(blocks[k])
    ensures FileScan(node, pageIndex, true, doc, palette, blocks) == FileScan(node, pageIndex, false, doc, palette, blocks)
    decreases |blocks|
  {
    if blocks != [] {
      var init := blocks[..|blocks| - 1];
      assert forall k :: 0 <= k < |init| ==> init[k] == blocks[k];
      FileScanAgrees(node, pageIndex, doc, palette, init);
      BlockOutcomeAgrees(node, pageIndex, doc, palette, blocks[|blocks| - 1]);
    }
  }

  /** The same for one block. */
  lemma BlockOutcomeAgrees(node: Fs.Node, pageIndex: Option<int>, doc: Option<Pdf>,
                           palette: Scene.PenColor -> Option<WT.Rgb>, block: Scene.Block)
    requires pageIndex != Some(0) && !Handwritten(block)
    ensures BlockOutcome(node, pageIndex, true, doc, palette, block) == BlockOutcome(node, pageIndex, false, doc, palette, block)
  {
    assert TextPage(pageIndex, true) == TextPage(pageIndex, false);
  }

  /** Where every page file is on a known page other than 0 and holds no
      handwriting, the code as written and the corrected one give the same
      result. */
  lemma ExtractAgrees(node: Fs.Node, id2page: map<string, int>, files: seq<(string, seq<Scene.Block>)>,
                      pdf: Option<Pdf>, palette: Scene.PenColor -> Option<WT.Rgb>)
    requires forall j :: 0 <= j < |files| ==>
      H.PageOfFile(id2page, files[j].0).Some? && H.PageOfFile(id2page, files[j].0) != Some(0) && NoHandwriting(files[j])
    ensures ExtractAsWritten(node, id2page, Some(files), pdf, palette) == Extract(node, id2page, Some(files), pdf, palette)
  {
    var doc := DocOf(node.metadata, pdf);
    if doc.Success? {
      AllRecordsAgree(node, id2page, doc.value, palette, files);
      var recs := AllRecords(node, id2page, doc.value, palette, files, false);
      if recs.Success? {
        AllRecordsKeys(node, id2page, doc.value, palette, files, false);
      }
    }
  }

  // ---------------------------------------------------------------------
  // Inputs on which the code as written goes wrong

  const Selection := Scene.GlyphBlock(0, Some(Scene.GlyphRange(Scene.Yellow, "word")), [0xA4, 0x01, 0x10, 0x20, 0xFF])

  /** A live ballpoint stroke of one point whose raw bytes hold a colour
      but do not mark a highlight. */
  const Scribble := Scene.LineBlock(0, Some(Scene.Line(Scene.Black, Scene.Ballpoint1, [Scene.Point(0.0, 0.0, 0.0, 0.0, 0.0, 0.0)], 1.0)),
                                    [0x00, 0x10, 0x20, 0x30, 0xFF])

  /** The colour `get_color` reads from `Scribble`'s bytes. */
  const ScribbleColor: Rgba := (0x30, 0x20, 0x10, 0xFF)

  /** A text selection on the first page (index 0) is recorded on page -1
      as written, because `0 or -1` is -1; corrected, on page 0. */
  lemma FirstPageTextMoves(node: Fs.Node, pdf: Option<Pdf>, palette: Scene.PenColor -> Option<WT.Rgb>)
    requires node.metadata.fileType == Some("notebook")
    ensures ExtractAsWritten(node, map["p" := 0], Some([("p.rm", [Selection])]), pdf, palette) ==
      Success([TextRecord(-1, "word", (0x20, 0x10, 0x01, 0xFF))])
    ensures Extract(node, map["p" := 0], Some([("p.rm", [Selection])]), pdf, palette) ==
      Success([TextRecord(0, "word", (0x20, 0x10, 0x01, 0xFF))])
  {
    var id2page, file := map["p" := 0], ("p.rm", [Selection]);
    PageNamed(0);
    assert DocOf(node.metadata, pdf) == Success(None);
    SelectionFile(node, id2page, palette, file, true);
    SelectionFile(node, id2page, palette, file, false);
    OneFile(node, id2page, None, palette, file, true);
    OneFile(node, id2page, None, palette, file, false);
    var rec0, rec1 := TextRecord(-1, "word", (0x20, 0x10, 0x01, 0xFF)), TextRecord(0, "word", (0x20, 0x10, 0x01, 0xFF));
    assert [rec0][..0] == [] && [rec1][..0] == [];
    assert Seqs.SortBy([rec0], NormKey) == [rec0];
    assert Seqs.SortBy([rec1], NormKey) == [rec1];
  }

  /** A page file holding one handwritten stroke makes the extraction as
      written raise `AttributeError` at the colour overwrite, since a stroke
      block has no `value`; corrected, the stroke is kept with the colour
      read for it, in one drawing record. */
  lemma StrokeRaises(node: Fs.Node, pdf: Option<Pdf>, palette: Scene.PenColor -> Option<WT.Rgb>)
    requires node.metadata.fileType == Some("notebook")
    ensures ExtractAsWritten(node, map[], Some([("q.rm", [Scribble])]), pdf, palette) == Failure(AttributeError("value"))
    ensures Extract(node, map[], Some([("q.rm", [Scribble])]), pdf, palette) ==
      Success([DrawingRecord(None, [Stroke(Scribble, ScribbleColor)])])
  {
    var file := ("q.rm", [Scribble]);
    assert DocOf(node.metadata, pdf) == Success(None);
    assert H.PageOfFile(map[], file.0) == None;
    ScribbleFile(node, map[], palette, file);
    var rec := DrawingRecord(None, [Stroke(Scribble, ScribbleColor)]);
    OneFile(node, map[], None, palette, file, false);
    assert [file][..0] == [];
    assert AllRecords(node, map[], None, palette, [file], true) == Failure(AttributeError("value"));
    assert [rec][..0] == [];
    assert Seqs.SortBy([rec], NormKey) == [rec];
  }

  /** The records of a page file holding only `Scribble`, for a notebook. */
  lemma ScribbleFile(node: Fs.Node, id2page: map<string, int>, palette: Scene.PenColor -> Option<WT.Rgb>,
                     file: (string, seq<Scene.Block>))
    requires node.metadata.fileType == Some("notebook") && file.1 == [Scribble]
    ensures FileOutput(node, id2page, None, palette, file, true) == Failure(AttributeError("value"))
    ensures FileOutput(node, id2page, None, palette, file, false) ==
      Success([DrawingRecord(H.PageOfFile(id2page, file.0), [Stroke(Scribble, ScribbleColor)])])
  {
    var pageIndex := H.PageOfFile(id2page, file.0);
    var st := Stroke(Scribble, ScribbleColor);
    ScribbleOutcome(node, pageIndex, palette);
    assert file.1[..|file.1| - 1] == [] && file.1[|file.1| - 1] == Scribble;
    assert FileScan(node, pageIndex, true, None, palette, []) == Success(([], []));
    assert FileScan(node, pageIndex, false, None, palette, []) == Success(([], []));
    assert FileScan(node, pageIndex, true, None, palette, file.1) == Failure(AttributeError("value"));
    assert [] + [st] == [st];
    assert FileScan(node, pageIndex, false, None, palette, file.1) == Success(([], [st]));
    assert [] + [DrawingRecord(pageIndex, [st])] == [DrawingRecord(pageIndex, [st])];
  }

  /** What the block loop does with `Scribble` in a notebook without a PDF. */
  lemma ScribbleOutcome(node: Fs.Node, pageIndex: Option<int>, palette: Scene.PenColor -> Option<WT.Rgb>)
    requires node.metadata.fileType == Some("notebook")
    ensures BlockOutcome(node, pageIndex, true, None, palette, Scribble) == Failure(AttributeError("value"))
    ensures BlockOutcome(node, pageIndex, false, None, palette, Scribble) == Success(Draw(Stroke(Scribble, ScribbleColor)))
  {
    assert !Fs.Node.IsHighlightBlock(Scribble);
    assert Fs.Node.IsHandwritingBlock(Scribble) == Success(true);
    assert GetColor(Scribble, palette) == Success(ScribbleColor);
    node.XPercentInverse(0.0);
    node.YPercentInverse(0.0);
    var ps := PointsOf(Scribble);
    assert Seqs.MinOf(Xs(ps)) == 0.0 && Seqs.MaxOf(Xs(ps)) == 0.0;
    assert Seqs.MinOf(Ys(ps)) == 0.0 && Seqs.MaxOf(Ys(ps)) == 0.0;
  }

  lemma OneFile(node: Fs.Node, id2page: map<string, int>, doc: Option<Pdf>,
                palette: Scene.PenColor -> Option<WT.Rgb>, file: (string, seq<Scene.Block>), asWritten: bool)
    requires FileOutput(node, id2page, doc, palette, file, asWritten).Success?
    ensures AllRecords(node, id2page, doc, palette, [file], asWritten) == FileOutput(node, id2page, doc, palette, file, asWritten)
  {
    assert [file][..0] == [];
    var out := FileOutput(node, id2page, doc, palette, file, asWritten).value;
    assert [] + out == out;
  }

  /** The page file "p.rm" gets the page the map gives "p", and "q.rm"
      none. */
  lemma PageNamed(n: int)
    ensures H.PageOfFile(map["p" := n], "p.rm") == Some(n)
    ensures H.PageOfFile(map["p" := n], "q.rm") == None
  {
    var s, t := "p.rm", "q.rm";
    assert s[..1] != "." && s[1..] == ".rm";
    assert t[..1] != "." && t[1..] == ".rm";
    assert ".rm"[..1] == "." && ".rm"[1..] == "rm";
    assert Strings.Split(".rm", ".")[0] == [];
    assert H.FileId(s) == "p";
    assert H.FileId(t) == "q";
  }

  /** The records of a page file holding only `Selection`. */
  lemma SelectionFile(node: Fs.Node, id2page: map<string, int>, palette: Scene.PenColor -> Option<WT.Rgb>,
                      file: (string, seq<Scene.Block>), asWritten: bool)
    requires file.1 == [Selection]
    ensures FileOutput(node, id2page, None, palette, file, asWritten) ==
      Success([TextRecord(TextPage(H.PageOfFile(id2page, file.0), asWritten), "word", (0x20, 0x10, 0x01, 0xFF))])
  {
    var pageIndex := H.PageOfFile(id2page, file.0);
    var tp := TextPage(pageIndex, asWritten);
    assert Fs.Node.IsHighlightBlock(Selection);
    assert GetColor(Selection, palette) == Success((0x20, 0x10, 0x01, 0xFF));
    assert BlockOutcome(node, pageIndex, asWritten, None, palette, Selection) == Success(Emit(TextRecord(tp, "word", (0x20, 0x10, 0x01, 0xFF))));
    var rec := TextRecord(tp, "word", (0x20, 0x10, 0x01, 0xFF));
    assert file.1[..|file.1| - 1] == [] && file.1[|file.1| - 1] == Selection;
    assert FileScan(node, pageIndex, asWritten, None, palette, []) == Success(([], []));
    assert [] + [rec] == [rec];
    assert FileScan(node, pageIndex, asWritten, None, palette, file.1) == Success(([rec], []));
    assert [rec] + [] == [rec];
  }

  /** A selection in "p.rm", on page 3, then a stroke in "q.rm", whose id
      is not in the page map. */
  const TwoFiles := [("p.rm", [Selection]), ("q.rm", [Scribble])]

  /** Corrected, `TwoFiles` give a text record on page 3 and a drawing
      record without a page index. */
  lemma TwoFilesRecords(node: Fs.Node, palette: Scene.PenColor -> Option<WT.Rgb>)
    requires node.metadata.fileType == Some("notebook")
    ensures AllRecords(node, map["p" := 3], None, palette, TwoFiles, false) ==
      Success([TextRecord(3, "word", (0x20, 0x10, 0x01, 0xFF)), DrawingRecord(None, [Stroke(Scribble, ScribbleColor)])])
  {
    var id2page := map["p" := 3];
    var f0, f1 := TwoFiles[0], TwoFiles[1];
    PageNamed(3);
    SelectionFile(node, id2page, palette, f0, false);
    ScribbleFile(node, id2page, palette, f1);
    OneFile(node, id2page, None, palette, f0, false);
    var text, drawing := TextRecord(3, "word", (0x20, 0x10, 0x01, 0xFF)), DrawingRecord(None, [Stroke(Scribble, ScribbleColor)]);
    assert AllRecords(node, id2page, None, palette, [f0], false) == Success([text]);
    assert FileOutput(node, id2page, None, palette, f1, false) == Success([drawing]);
    assert TwoFiles[..|TwoFiles| - 1] == [f0] && TwoFiles[|TwoFiles| - 1] == f1;
    assert [text] + [drawing] == [text, drawing];
  }

  /** Once the colour overwrite no longer raises, a selection on page 3 and
      a stroke in a page file whose id is not in the page map give a text
      record and a drawing record without a page index, and the sort as
      written compares `None` with 3 and raises; corrected, the unknown
      page sorts first. */
  lemma UnknownPageSortRaises(node: Fs.Node, pdf: Option<Pdf>, palette: Scene.PenColor -> Option<WT.Rgb>)
    requires node.metadata.fileType == Some("notebook")
    ensures var text, drawing := TextRecord(3, "word", (0x20, 0x10, 0x01, 0xFF)), DrawingRecord(None, [Stroke(Scribble, ScribbleColor)]);
      AllRecords(node, map["p" := 3], None, palette, TwoFiles, false) == Success([text, drawing]) &&
      SortAsWritten([text, drawing]) == Failure(TypeError) &&
      Extract(node, map["p" := 3], Some(TwoFiles), pdf, palette) == Success([drawing, text])
  {
    TwoFilesRecords(node, palette);
    assert DocOf(node.metadata, pdf) == Success(None);
    var recs := [TextRecord(3, "word", (0x20, 0x10, 0x01, 0xFF)), DrawingRecord(None, [Stroke(Scribble, ScribbleColor)])];
    assert Key(recs[1]).None?;
    assert recs[..1] == [recs[0]] && [recs[0]][..0] == [];
    assert Seqs.SortBy([recs[0]], NormKey) == [recs[0]];
    assert Seqs.Insert([recs[0]], recs[1], NormKey) == [recs[1], recs[0]];
  }
}
