# rmrf core, modelled in Dafny

rmrf turns the files of a reMarkable tablet into SVG drawings, highlight
records and Markdown notes. This project models the deterministic logic at
its centre and proves what that logic promises:

- **Pen registry** (`writing_tools.dfy`, module `WritingTools`): the colour
  palette, the pen families `Pen.create` dispatches to, the staged
  construction of a pen (base constructor, then the family's adjustments of
  width, opacity, segment length and line cap) and the per-segment width,
  opacity and colour formulas with `cutoff`. `src/rmrf/utils/writing_tools.py`
  is a copy of `src/rmrf/writing_tools.py`, line for line, so the one module
  models both.
- **SVG rendering** (`svg.dfy`, module `Svg`): `get_limits` as a loop proved
  against a fold, `get_dimensions`, the segmentation loop of `draw_stroke`
  (which polyline every point lands in, and that consecutive polylines meet),
  the text loop of `draw_text` with its list symbols and indents, and
  `blocks_to_svg`'s dispatch and envelope.
- **Highlight extraction** (`parse.dfy`, module `Parse`): `get_color`, the
  block classification of `extract_highlights`, the word-snapped crop
  rectangle, one drawing record per page file, and the final stable sort,
  both as written and with three corrections (see "## Findings").
- **Documents and the file system** (`meta.dfy`, `fs.dfy`, `base_fs.dfy`,
  `hierarchy.dfy`): the page-id map built from `cPages` and the redirection
  pairs, page scrolls and tags, the geometry of a node, the deleted rule, the
  block predicates, and the `FileSystem` classes whose `add_node` and
  `build_hierarchy` put every kept node in exactly one children list;
  `read_file_ids`.
- **Markdown notes** (`markdown.dfy`, `export_markdown.dfy`): the title
  getters, quote cleaning, the hexadecimal colour of a mark, the staleness
  decision, the grouping of highlights into page sections (one per page, in
  ascending order, each holding exactly that page's highlights), the outcome
  `update` reports, and the prefix-driven tree walk of `update_notes` (the
  export writer's walk, `src/rmrf/export/markdown.py:261-285`, is the same
  walk).

`common.dfy`, `strings.dfy` and `seqs.dfy` hold the Python built-ins the code
relies on (`int`, `math.ceil`, `min`, `max`, `str.split`, `str.replace`,
`os.path.basename`, `sorted`, `itertools.groupby`), each with the properties
the rest of the model uses. `scene.dfy` holds the decoded scene blocks the
code consumes.

Exceptions are values: every operation that can raise returns a `Result`
whose failure names the exception (`KeyError` with its key, `TypeError`,
an assertion error and so on).

## Model

| member | source | states |
|---|---|---|
| WritingTools.Palette | src/rmrf/writing_tools.py:17-33 | every colour id has an RGB value except the highlight colour, and white is (255, 255, 255) |
| WritingTools.PostInit | src/rmrf/writing_tools.py:41-61 | the base constructor fails with an unknown-colour assertion exactly for the palette's missing highlight id |
| WritingTools.Refine | src/rmrf/writing_tools.py:132-298 | no subclass constructor changes the family, the base or stroke colour, the stroke opacity or the stroke width |
| WritingTools.FamilyOf | src/rmrf/writing_tools.py:99-129 | a tool id has a pen family exactly when the dispatch lists it |
| WritingTools.Create | src/rmrf/writing_tools.py:99-129 | a pen built by `create` has the family the dispatch names and a segment length of at least 2 |
| WritingTools.Build | src/rmrf/writing_tools.py:99-129 | one `case` of `Pen.create` once the family is known: the fixed widths of highlighter and shader, white for the eraser, then the base constructor and the family's adjustments; stated by `WritingTools.CreatePairs`, `WritingTools.CreateFixedWidths`, `WritingTools.CreateEraser` and `WritingTools.CreateStyle` |
| WritingTools.DirectionToTilt | src/rmrf/writing_tools.py:69-71 | a direction byte in [0, 255] becomes an angle in [0, 2·pi] |
| WritingTools.Cutoff | src/rmrf/writing_tools.py:94-96 | the result lies in [0, 1]; a value inside is kept, one below becomes 0, one above becomes 1 |
| WritingTools.SegmentWidth | src/rmrf/writing_tools.py:79-82 | the pencil never exceeds ten times its base width; families without a formula of their own use the base width |
| WritingTools.SegmentOpacity | src/rmrf/writing_tools.py:89-92 | the pencil's opacity lies in [-0.1, 0.9]; every other family uses its base opacity |
| WritingTools.SegmentColor | src/rmrf/writing_tools.py:84-87 | the ballpoint draws a grey (three equal channels); the brush never exceeds 255 minus the base colour in any channel; every other family uses the base colour |
| WritingTools.Scaled | src/rmrf/writing_tools.py:245-250 | truncating a factor in [0, 1] times the room left below 255 stays within that room |
| WritingTools.CreateFails | src/rmrf/writing_tools.py:41-129 | `create` fails exactly for an unlisted tool (with the tool error) or for the highlight colour on any tool but the eraser (with the colour error) |
| WritingTools.CreatePairs | src/rmrf/writing_tools.py:100-118 | both ids of each paintbrush, marker, ballpoint, fineliner, pencil, mechanical pencil and highlighter pair build the same pen |
| WritingTools.CreateColor | src/rmrf/writing_tools.py:41-61 | an RGBA colour gives its first three channels and opacity a/255; a palette id gives its palette colour and opacity 1; the stroke colour is the base colour |
| WritingTools.CreateFixedWidths | src/rmrf/writing_tools.py:115-122 | highlighters use width 25 and the shader width 12, whatever width was asked for |
| WritingTools.CreateEraser | src/rmrf/writing_tools.py:125-127 | the eraser never fails, is white whatever colour was asked for, has a square cap and doubles its base width while its stroke width stays the requested one |
| WritingTools.CreateStrokeWidth | src/rmrf/writing_tools.py:56-61 | the stroke width is the requested width; only the fineliner (w^2.1 · 1.3), the mechanical pencil (w²) and the eraser (2w) rescale the base width |
| WritingTools.CreateStyle | src/rmrf/writing_tools.py:56-298 | segment length 5, 3 or 2 for the ballpoint, the marker and the pencil, brush and calligraphy pens, otherwise 1000; square caps for the highlighter and both erasers; base opacity 0.7, 0.3, 0.1 and 0 for the mechanical pencil, the highlighter, the shader and the area eraser, otherwise 1 |
| WritingTools.DefaultSegmentIndependent | src/rmrf/writing_tools.py:79-92 | families without formulas of their own draw every point with the base width, opacity and colour, whatever its speed, direction, width or pressure |
| Svg.ExtendTight | src/rmrf/svg.py:272-278 | taking `min`/`max` with one more point keeps the limits the smallest box that holds every point seen and touches each of its sides |
| Svg.LimitsOfTight | src/rmrf/svg.py:260-280 | the limits folded over all points are tight: every point lies inside, and each bound is attained by some point |
| Svg.GetLimits | src/rmrf/svg.py:260-280 | the loop computes the fold over the points of stroke items only (text blocks and empty items are passed over); it yields no limits (the infinities) exactly when there is no such point, otherwise a box that covers every point and whose bounds are attained |
| Svg.GetDimensions | src/rmrf/svg.py:291-329 | the deltas are the given shifts; width and height are at least the screen, at least the stroke extent, and are the ceiling of the larger of the two (less than it plus one) |
| Svg.DimensionsMayNotContain | src/rmrf/svg.py:137-142 | with the default shift of half the screen width, a stroke point at x = -1000 lands off the canvas, so the assertions of `draw_stroke` can fail on strokes `get_dimensions` measured |
| Svg.ShiftByMinimumFits | src/rmrf/svg.py:291-329 | shifting by minus the lower limits puts every stroke point on the canvas the dimensions describe |
| Svg.ShiftFits | src/rmrf/svg.py:135-142 | a point inside the limits, shifted by minus their lower corner, passes both canvas assertions |
| Svg.ShiftAll | src/rmrf/svg.py:135-136 | every point is moved by the document deltas, one vertex per point, in order |
| Svg.AllInCanvasEach | src/rmrf/svg.py:137-142 | the recursive check of the assertions holds exactly when every shifted point is inside `0..width` by `0..height` |
| Svg.Segments | src/rmrf/svg.py:134-171 | the loop opens at least one polyline exactly when the stroke has a point |
| Svg.SegmentsSnoc | src/rmrf/svg.py:144-171 | one more point opens a new polyline (starting with the previous point) at an index divisible by the segment length, and otherwise joins the last one |
| Svg.SegmentsCount | src/rmrf/svg.py:144 | a stroke of n points is drawn as ceil(n / segment_length) polylines |
| Svg.CountStep | src/rmrf/svg.py:144 | how ceil(i / L) moves when point i is added, depending on whether `i % L == 0` |
| Svg.DrawStroke | src/rmrf/svg.py:105-173 | no output for an empty item; an error from `Pen.create` is passed on; otherwise the result of the point loop with the pen built from the tool, colour and thickness |
| Svg.DrawStrokeSpec | src/rmrf/svg.py:105-173 | `draw_stroke` as a value: nothing for an empty item, the pen's error for an unknown tool, an assertion error off the canvas, otherwise the pen and its segments; `Svg.DrawStroke` is proved to compute it |
| Svg.DrawPoints | src/rmrf/svg.py:134-172 | the point loop raises the assertion error exactly when some shifted point is off the canvas, and otherwise yields the polylines `Segments` describes |
| Svg.OpenPoint | src/rmrf/svg.py:144-171 | a loop turn at an index divisible by the segment length opens a new polyline with the width and opacity from the pen, starting from the previous vertex, and keeps the loop invariant |
| Svg.GrowPoint | src/rmrf/svg.py:164-171 | a loop turn at any other index appends the vertex to the open polyline and keeps the loop invariant |
| Svg.OutsideStays | src/rmrf/svg.py:137-142 | one point off the canvas makes the whole stroke fail |
| Svg.ChunkSame | src/rmrf/svg.py:144-171 | a polyline that ends before the last point is the same without that point |
| Svg.ChunkGrow | src/rmrf/svg.py:164-171 | the polyline the last point falls in is the one without it, plus its vertex |
| Svg.KeepChunk | src/rmrf/svg.py:144-171 | a polyline that ends before the new point is left as it was |
| Svg.GrowLastChunk | src/rmrf/svg.py:164-171 | the polyline the new point extends gains that vertex and nothing else |
| Svg.OpenChunk | src/rmrf/svg.py:159-166 | the new point opens polyline k exactly when its index is k times the segment length |
| Svg.SegmentsChunks | src/rmrf/svg.py:134-172 | every polyline k holds exactly the shifted points from index k·L up to the next multiple of L, preceded by point k·L - 1 unless k is 0; its width and opacity come from point k·L and the previous polyline's width |
| Svg.ChunksOpen | src/rmrf/svg.py:159-166 | induction step of `SegmentsChunks` when the new point opens a polyline |
| Svg.ChunksGrow | src/rmrf/svg.py:167-171 | induction step of `SegmentsChunks` when the new point joins the last polyline |
| Svg.SegmentsJoin | src/rmrf/svg.py:164-165 | every polyline after the first starts with the last vertex of the one before, so the drawn line has no gaps |
| Svg.ChunksMeet | src/rmrf/svg.py:164-165 | the vertex ranges of consecutive polylines overlap in exactly one shared vertex |
| Svg.Lookup | src/rmrf/svg.py:211-212 | `styles.get(id, None)`: a style exactly when the id has one, and then that style |
| Svg.StyleClass | src/rmrf/svg.py:213-215 | "plain" without an own style, otherwise the style's lower-cased name |
| Svg.ListSymbol | src/rmrf/svg.py:218-229 | a symbol exactly when the left neighbour's style is a bullet, bullet2, checkbox or checked checkbox, and it is one character |
| Svg.DrawText | src/rmrf/svg.py:176-257 | the loops over the text items and their lines compute the `<text>` element that `DrawTextSpec` describes (none when there is no content) |
| Svg.DrawLines | src/rmrf/svg.py:233-251 | the inner loop over the lines of one item yields the spans and newline count of the fold over those lines |
| Svg.TextsEmpty | src/rmrf/svg.py:254 | spans that each hold text have text together exactly when there is a span |
| Svg.PartStepSpans | src/rmrf/svg.py:235-251 | one line adds at most one span, holding that line, after the earlier spans, with the item's class and x, and with `dy` 0 when there is a margin |
| Svg.PartsFoldSpans | src/rmrf/svg.py:235-251 | the lines of an item add one span per non-empty line, in order, spelling the item's text, each with the item's class and x |
| Svg.PartsSnocSpans | src/rmrf/svg.py:235-251 | induction step of `PartsFoldSpans` for the last line |
| Svg.ItemStepSpans | src/rmrf/svg.py:210-251 | one item adds its list symbol first (at the block's x, with the current `dy`), then its lines at x + 50 when there is a symbol |
| Svg.ItemsFoldText | src/rmrf/svg.py:210-251 | the spans of a block spell out every item's symbol and text, in order, and none is empty |
| Svg.ItemStepText | src/rmrf/svg.py:210-251 | one item appends its symbol and text and adds only spans with text |
| Svg.DrawTextContent | src/rmrf/svg.py:254-257 | a `<text>` element is written exactly when the items hold some text, and its spans spell out that text |
| Svg.Firsts | src/rmrf/svg.py:71 | the blocks without their colours, in order |
| Svg.DrawBlocksFailureStays | src/rmrf/svg.py:92-98 | once a block raises, the rest of the loop keeps that error |
| Svg.DrawStep | src/rmrf/svg.py:92-98 | one pass of the block loop of `blocks_to_svg`: a stroke adds its drawing or raises (an empty one raises `TypeError` as written, is skipped corrected), text adds its spans, other blocks are skipped; stated by `Svg.DrawBlocksSuccess` and `Svg.DrawBlocksFirstError` |
| Svg.DrawBlocks | src/rmrf/svg.py:92-98 | the block loop of `blocks_to_svg`, stopping at the first error; stated by `Svg.DrawBlocksSuccess`, `Svg.DrawBlocksFirstError` and `Svg.DrawBlocksAgree` |
| Svg.BlocksToSvg | src/rmrf/svg.py:57-103 | the loop over the blocks computes the document `BlocksToSvgSpec` describes: dimensions, the optional background image, one drawing per stroke or text block, the overlay rectangle |
| Svg.DrawStrokeEmpty | src/rmrf/svg.py:114-116 | a stroke block draws nothing exactly when its item is empty |
| Svg.DrawBlocksSuccess | src/rmrf/svg.py:92-98 | the drawing loop succeeds exactly when no stroke raises, and then draws one element per stroke or text block |
| Svg.DrawBlocksFirstError | src/rmrf/svg.py:92-98 | a failed loop reports the error of the first stroke that raises |
| Svg.DrawBlocksAgree | src/rmrf/svg.py:92-98 | without empty stroke items, the loop as written and the corrected one give the same result |
| Svg.BlocksToSvgDoc | src/rmrf/svg.py:57-103 | the document succeeds exactly when no stroke raises; its page is at least a screen; the background image sits `margin` inside the page on every side; the clickable rectangle covers the page |
| Svg.EmptyStrokeRaises | src/rmrf/svg.py:114-116 | a block with an empty stroke item makes the code as written raise `TypeError`, while the corrected loop writes an empty page |
| Svg.BlocksToSvgAsWritten | src/rmrf/svg.py:57-103 | `blocks_to_svg` as written, where an empty stroke raises; `Svg.EmptyStrokeRaises` shows an input where it does and `Svg.DrawBlocksAgree` where it agrees with the corrected one |
| Parse.GetColor | src/rmrf/parse.py:135-143 | with five raw bytes or more the colour is the last four read as (r, g, b, a) from their b, g, r, a order; otherwise the palette colour of the item, opaque; it fails exactly when there are fewer than five bytes and the item has no value (attribute error) or the palette has no entry (key error) |
| Parse.GetColorRoundTrip | src/rmrf/parse.py:138-140 | a colour stored as the last four of at least five bytes is read back as itself |
| Parse.GetColorBytes | src/rmrf/parse.py:138-140 | with five bytes or more the colour read encodes back to the trailing four bytes |
| Parse.GetColorPalette | src/rmrf/parse.py:142-143 | with fewer bytes the colour is the palette's, with alpha 255 |
| Parse.X0s | src/rmrf/parse.py:229 | the left edges of the word boxes, one per word, in order |
| Parse.Y0s | src/rmrf/parse.py:230 | the top edges of the word boxes, one per word, in order |
| Parse.X1s | src/rmrf/parse.py:231-234 | the right edges of the word boxes, one per word, in order |
| Parse.Y1s | src/rmrf/parse.py:235-238 | the bottom edges of the word boxes, one per word, in order |
| Parse.Crop | src/rmrf/parse.py:226-239 | the crop lies inside the page, covers every word box widened by the 3-point margin as far as the page reaches, and its left and right edges come from actual words |
| Parse.TextOf | src/rmrf/parse.py:189 | only a text-selection item with a value has text; anything else raises an attribute error |
| Parse.PointsOf | src/rmrf/parse.py:205 | a stroke with a value yields its own points; any other block yields none, and points only come from a stroke with a value |
| Parse.Xs | src/rmrf/parse.py:207-209 | the x coordinates of the stroke points, in order |
| Parse.Ys | src/rmrf/parse.py:208-210 | the y coordinates of the stroke points, in order |
| Parse.Live | src/rmrf/parse.py:175-181 | the blocks past the two `continue`s at the head of the block loop: strokes and glyphs whose deleted length is not positive; `Parse.BlockOutcome` skips every other block |
| Parse.Handwritten | src/rmrf/parse.py:184-203 | the blocks that reach the colour overwrite of line 203: live, not a highlight, and a stroke with points; `Parse.BlockOutcome` raises there as written exactly for these (after the colour is read) |
| Parse.NoHandwriting | src/rmrf/parse.py:185-203 | no block of a page file reaches the colour overwrite; the condition under which `Parse.FileOutputAgrees` shows the code as written and the corrected code agree |
| Parse.BlockOutcome | src/rmrf/parse.py:174-259 | a block that is neither a stroke nor a selection, or is deleted, is skipped; a highlight block gives a text record on the text page with its text and colour (or the text attribute error); a live non-highlight block other than a stroke with a value raises the `points` attribute error; a handwritten stroke raises the colour's error, and as written then always raises `AttributeError('value')` at the colour overwrite of line 203; corrected, a stroke is kept only when handwritten, together with the colour read for it, and only when there is no PDF page to consult or the words under it are empty; an image record only comes, corrected, from a handwritten stroke on a known page of an existing PDF; a block never emits a drawing record |
| Parse.FileScan | src/rmrf/parse.py:174-259 | the records scanned from one page file are never drawing records; what the scan holds as written is stated by `Parse.FileScanAsWritten` |
| Hierarchy.PageOfFile | src/rmrf/parse.py:167-169 | a page file has a page index (and, in `read_page_map` of `src/rmrf/base/fs.py`, a key for its blocks) exactly when the id before the first '.' of its name is in the page map |
| Parse.TextPage | src/rmrf/parse.py:188 | a known page other than 0 is kept and an unknown one becomes -1; page 0 becomes -1 as written (`0 or -1`) and stays 0 once corrected |
| Parse.FileOutput | src/rmrf/parse.py:166-266 | only the last record of a page file can be a drawing record, and it carries the file's page index and a non-empty list of strokes; as written no drawing record is ever produced (`Parse.FileScanAsWritten`) |
| Parse.AllRecords | src/rmrf/parse.py:166-266 | the records of the page files, file by file, stopping at the first error; stated by `Parse.AllRecordsKeys`, `Parse.AllRecordsAsWritten` and `Parse.AllRecordsFailureStays` |
| Parse.DocOf | src/rmrf/parse.py:155-164 | reading the file type raises exactly when the metadata has none; a PDF is consulted only for PDF and EPUB documents |
| Parse.SortAsWritten | src/rmrf/parse.py:268 | the sort as written raises exactly when there are two records or more and one has no page index |
| Parse.ExtractAsWritten | src/rmrf/parse.py:146-268 | without a highlight directory, no records; it fails exactly when the file type is missing or a block of some page file raises (every handwritten stroke does, at line 203); a successful run holds text records only, so the sort as written never meets a missing page index |
| Parse.FileScanAsWritten | src/rmrf/parse.py:174-259 | as written, a page file that scans without error leaves no stroke and yields text records only |
| Parse.AllRecordsAsWritten | src/rmrf/parse.py:166-266 | as written, the records of page files that scan without error are all text records |
| Parse.TextsSort | src/rmrf/parse.py:268 | text records always carry a page, so the sort as written succeeds on them and keeps them text records |
| Parse.Extract | src/rmrf/parse.py:146-268 | with the corrections of lines 188, 203 and 268: without a highlight directory, no records; it fails exactly when the file type is missing or a block of some page file raises; otherwise it returns as many records as the page files produce, sorted (`Parse.ExtractSorted`) |
| Parse.ExtractHighlights | src/rmrf/parse.py:146-268 | the loop over the page files computes the corrected extraction (page 0 kept at line 188, each handwritten stroke kept with the colour read for it at line 203, an unknown page sorted as -1 at line 268): no records without a highlight directory, the first error of any block otherwise, or the records of every file in order, stably sorted by page |
| Parse.ScanFiles | src/rmrf/parse.py:166-266 | the loop over the page files gives the records of every file in order, or the first file's error |
| Parse.ExtractIs | src/rmrf/parse.py:146-268 | once the PDF to consult is known, the corrected extraction is the sorted records of the page files or their first error |
| Parse.ScanFile | src/rmrf/parse.py:166-266 | the corrected loop over the blocks of one page file computes that file's output: its records, then one drawing record of its leftover strokes and their colours if any, or the first block error |
| Parse.ScanStep | src/rmrf/parse.py:174-259 | one more block extends the records (emit) or the strokes (draw) or nothing (skip) |
| Parse.ScanFails | src/rmrf/parse.py:174-259 | a block that raises ends the scan of its file with its error |
| Parse.FileOutputOf | src/rmrf/parse.py:261-266 | the output of a page file is its records plus the drawing record when strokes are left |
| Parse.FileScanFailureStays | src/rmrf/parse.py:174-259 | once a block raises, the later blocks keep that error |
| Parse.AllRecordsFailureStays | src/rmrf/parse.py:166-266 | once a page file raises, the later files keep that error |
| Parse.ExtractSorted | src/rmrf/parse.py:268 | the result is sorted by page and, for every page, keeps the records in the order the files and blocks produced them (a stable sort) |
| Parse.FileScanTexts | src/rmrf/parse.py:184-194 | each live highlight block of a page file yields exactly one text record, and no other block yields one |
| Parse.AllRecordsKeys | src/rmrf/parse.py:261-266 | a record without a page index only comes from a page file whose id is not in the page map |
| Parse.FileOutputAgrees | src/rmrf/parse.py:185-203 | for a page file whose page index is not 0 and which holds no handwritten stroke, the code as written and the corrected code give the same records |
| Parse.FileScanAgrees | src/rmrf/parse.py:185-203 | off page 0 and without handwritten strokes, both readings scan the blocks of a page file alike |
| Parse.BlockOutcomeAgrees | src/rmrf/parse.py:185-203 | off page 0, both readings treat every block that is not a handwritten stroke alike |
| Parse.AllRecordsAgree | src/rmrf/parse.py:185-203 | when no page file is on page 0 or holds a handwritten stroke, the code as written and the corrected code give the same records |
| Parse.ExtractAgrees | src/rmrf/parse.py:185-268 | when every page file is on a known page other than 0 and holds no handwritten stroke, the code as written and the corrected code give the same result |
| Parse.FirstPageTextMoves | src/rmrf/parse.py:188 | a text selection on page 0 is recorded on page -1 as written, and on page 0 once corrected |
| Parse.StrokeRaises | src/rmrf/parse.py:203 | a page file holding one handwritten stroke makes the extraction as written raise `AttributeError('value')`; corrected, it gives one drawing record holding that stroke and the colour read from its bytes |
| Parse.ScribbleFile | src/rmrf/parse.py:166-266 | a page file holding only that stroke raises as written and, corrected, yields one drawing record of it on the file's page |
| Parse.ScribbleOutcome | src/rmrf/parse.py:185-215 | in a notebook without a PDF, that stroke raises at the colour overwrite as written and, corrected, is kept for drawing with its colour |
| Parse.OneFile | src/rmrf/parse.py:166-266 | the records of a single page file are that file's output |
| Parse.PageNamed | src/rmrf/parse.py:167-169 | with the page map {"p": n}, the page file "p.rm" gets page index n and "q.rm" none |
| Parse.SelectionFile | src/rmrf/parse.py:184-194 | a page file holding one selection yields one text record with its text and raw-byte colour |
| Parse.TwoFilesRecords | src/rmrf/parse.py:166-266 | corrected, a selection on page 3 then a stroke in a page file not in the page map give a text record on page 3 and a drawing record without a page index |
| Parse.UnknownPageSortRaises | src/rmrf/parse.py:268 | once line 203 is corrected, a selection on page 3 and a stroke in a page file not in the page map give a text record and a drawing record without a page index, which the sort as written compares and raises `TypeError` on; fully corrected, the unknown page sorts first |
| Meta.Zip | src/rmrf/fs.py:31-33 | `zip(pages, redirectionPageMap)` pairs entries up to the shorter list, position by position |
| Meta.PageMap | src/rmrf/fs.py:25-34 | `read_page_map` on a starting map: index the `cPages` ids, then assign the redirection pairs; stated by `Meta.PageMapLookup`, `Meta.PageMapKeys` and `Meta.PageMapFails` |
| Meta.IndexPagesLookup | src/rmrf/fs.py:26-28 | after the `cPages` loop an id is mapped exactly when it was before or some entry has it; an entry's id maps to the index of its last occurrence; other ids keep their value |
| Meta.AssignLookup | src/rmrf/fs.py:30-34 | after the redirection loop a page id listed in a pair maps to the redirection of its last pair; other ids keep their value |
| Meta.PageMapLookup | src/rmrf/fs.py:25-34 | the page map of a document: a page listed in `pages` takes the redirection of its last pair, otherwise an id of `cPages` takes the position of its last entry, and nothing else is added |
| Meta.PageMapKeys | src/rmrf/fs.py:25-34 | read from an empty map, the page map has a key for each page id the metadata names and no other |
| Meta.PageMapFails | src/rmrf/fs.py:30-33 | `read_page_map` raises exactly when `pages` is present without `redirectionPageMap`, with that key error |
| Meta.Deleted | src/rmrf/fs.py:132-134 | a true `deleted` flag decides; otherwise the parent is read, which raises when absent, and the node is deleted exactly when its parent is "trash" |
| Meta.Parent | src/rmrf/fs.py:124-126 | the parent id is read exactly when the metadata has one |
| Meta.Name | src/rmrf/fs.py:128-130 | the visible name is read exactly when the metadata has one |
| Meta.LastModified | src/rmrf/fs.py:96-100 | the modification instant is read exactly when the metadata has one whose year lies in 1..9999; a missing one is a KeyError and one outside that range a ValueError, as `datetime.fromtimestamp` raises |
| Meta.CreatedTime | src/rmrf/fs.py:86-94 | the creation instant when its year starts with "20" (2000 up to 2100), the current clock for any other year in 1..9999; a key error when the metadata has none, a ValueError when its year lies outside 1..9999 |
| Meta.FileType | src/rmrf/fs.py:116-118 | the file type is read exactly when the metadata has one |
| Fs.Node.constructor | src/rmrf/fs.py:10-18 | a new node holds its id and metadata, an empty page map and no children |
| Fs.Node.ReadPageMap | src/rmrf/fs.py:25-34 | the page map becomes the `cPages` indices, then overridden by the `pages`/`redirectionPageMap` pairs up to the shorter list; when `pages` has no `redirectionPageMap` the key error is raised after the first loop has run, with its entries kept; the children are untouched |
| Fs.Node.Height | src/rmrf/fs.py:43-48 | 2160 for a notebook, the zoomed page height otherwise, a key error when that or the file type is missing |
| Fs.Node.Width | src/rmrf/fs.py:50-55 | 1620 for a notebook, the zoomed page width otherwise, a key error when that or the file type is missing |
| Fs.Node.AbsoluteX | src/rmrf/fs.py:74-75 | `absolute_x` fails exactly when the width does, and moving the result back by half the width gives the coordinate |
| Fs.Node.AbsoluteY | src/rmrf/fs.py:77-78 | `absolute_y` leaves the coordinate as it is; used by `Fs.Node.YPercent` |
| Fs.Node.XPercent | src/rmrf/fs.py:80-81 | `x_percent` divides the absolute coordinate by the width; its meaning is stated by `Fs.Node.XPercentInverse` |
| Fs.Node.YPercent | src/rmrf/fs.py:83-84 | `y_percent` divides the coordinate by the height; its meaning is stated by `Fs.Node.YPercentInverse` |
| Fs.Node.XPercentInverse | src/rmrf/fs.py:74-81 | `x_percent` succeeds exactly for a known non-zero width; the fraction times the width, less half the width, gives back x; on a page of positive width the fraction lies in [0, 1] exactly when x lies within half a width of the centre line; on a notebook it is (x + 810) / 1620 |
| Fs.Node.YPercentInverse | src/rmrf/fs.py:77-84 | `y_percent` succeeds exactly for a known non-zero height, the fraction times the height gives back y, and on a notebook it is y / 2160 |
| Fs.Node.IsHighlightBlock | src/rmrf/fs.py:136-139 | a block is a highlight exactly when its raw bytes start with 0xA4 0x01 and are at least 5 long |
| Fs.Node.IsHandwritingBlock | src/rmrf/fs.py:141-143 | true exactly for a stroke with at least one point; asking a selection item with a value for its points raises |
| Fs.TableAdd | src/rmrf/fs.py:161-166 | storing one more non-root node with a parent under its id keeps the node table well formed (each id listed once, in insertion order) |
| Fs.NodesOfSnoc | src/rmrf/fs.py:168-174 | the nodes of a list of ids grow by one node when an id of a kept node is appended |
| Fs.ChildNodesSnoc | src/rmrf/fs.py:169-174 | one visit appends the node to the children of its parent when the parent is kept, to the root's otherwise, and to no other list |
| Fs.FileSystem.Parents | src/rmrf/fs.py:170 | the parent map has exactly the kept nodes as keys |
| Fs.FileSystem.constructor | src/rmrf/fs.py:147-159 | the file system starts with only the root node "root" (its root metadata, empty page map, no children) and no kept nodes |
| Fs.FileSystem.AddNode | src/rmrf/fs.py:161-166 | `add_node` raises exactly when reading the page map or the deleted flag raises; returns nothing for a deleted node; otherwise makes a fresh node with the id, metadata and page map, stores it under its id and keeps the table well formed; nothing is stored in the other cases |
| Fs.FileSystem.BuildHierarchy | src/rmrf/fs.py:168-174 | every kept node's children grow by its children in insertion order, and the root's by every node whose parent is not kept; page maps are untouched |
| Fs.FileSystem.Visit | src/rmrf/fs.py:169-174 | one step of `build_hierarchy` extends the children lists by the visited node |
| Fs.FileSystem.Link | src/rmrf/fs.py:171-174 | the node is appended to the children of the kept parent, or to the root's when the parent is not kept; every other children list and every page map stays the same |
| BaseFs.ScrollsLookup | src/rmrf/base/fs.py:37-40 | page i is recorded with a scroll exactly when entry i of `cPages` has a `verticalScroll`, and reading the default dictionary gives that value or 0 |
| BaseFs.AddTagsLookup | src/rmrf/base/fs.py:48-52 | the tag loop raises exactly when some entry's page id is unmapped, with the key error of the first such entry; otherwise a page's tags are its earlier tags plus the names of exactly the entries whose page id maps to it |
| BaseFs.AddTagsFailureStays | src/rmrf/base/fs.py:49-52 | once a tag entry raises, the rest of the loop keeps that error |
| BaseFs.BlocksByPageDomain | src/rmrf/base/fs.py:59-64 | a page key holds blocks exactly when some page file's name maps to it |
| BaseFs.BlocksByPageLookup | src/rmrf/base/fs.py:59-64 | a page key that holds blocks holds those of the last page file mapped to it (later files overwrite earlier ones) |
| BaseFs.ReadPagesFails | src/rmrf/base/fs.py:34-64 | `read_page_map` raises exactly when `pages` lacks its `redirectionPageMap` or a page tag names an unmapped page id; on success the page map is the one `fs.py` computes, whatever page files exist |
| BaseFs.Scrolls | src/rmrf/base/fs.py:35-40 | the scroll offsets of the first loop of `read_page_map`; stated by `BaseFs.ScrollsLookup` |
| BaseFs.AddTags | src/rmrf/base/fs.py:48-52 | the tag loop of `read_page_map`, failing on an unmapped page id; stated by `BaseFs.AddTagsLookup` and `BaseFs.AddTagsFailureStays` |
| BaseFs.BlocksByPage | src/rmrf/base/fs.py:54-64 | the page-file loop of `read_page_map`, a later file replacing an earlier one of the same key; stated by `BaseFs.BlocksByPageDomain` and `BaseFs.BlocksByPageLookup` |
| BaseFs.ReadPages | src/rmrf/base/fs.py:34-64 | all of `read_page_map`: page map, scrolls, tags and blocks; when it fails and what page map it builds is stated by `BaseFs.ReadPagesFails` |
| BaseFs.File.constructor | src/rmrf/base/fs.py:16-26 | a new file holds its id and metadata and empty maps and children |
| BaseFs.File.ReadPageMap | src/rmrf/base/fs.py:34-64 | on success the page map, scrolls, tags and page blocks become exactly those `ReadPages` describes; on failure the error is the one it describes; the children are untouched |
| BaseFs.File.ReadIndex | src/rmrf/base/fs.py:35-46 | the two page-id loops give the page map of the metadata, or its key error; the scrolls are those of `cPages`; tags, blocks and children are untouched |
| BaseFs.File.ReadPageIndices | src/rmrf/base/fs.py:35-40 | the `cPages` loop maps each entry's id to its index and records its scroll offset, and changes nothing else |
| BaseFs.File.ReadRedirections | src/rmrf/base/fs.py:42-46 | the redirection loop assigns each page of the zipped pairs its redirection, later pairs overriding, and changes nothing else |
| BaseFs.File.ReadTags | src/rmrf/base/fs.py:48-52 | the tag loop computes the tags of `AddTags` from an empty default dictionary, or raises its key error, and changes nothing else |
| BaseFs.File.ReadBlocks | src/rmrf/base/fs.py:54-64 | the page-file loop stores each file's blocks under its page key (none without a directory), later files replacing earlier ones, and changes nothing else |
| BaseFs.File.GetPageBlocks | src/rmrf/base/fs.py:193-194 | a page without stored blocks gives no blocks |
| BaseFs.File.PageScroll | src/rmrf/base/fs.py:25-40 | `page_scroll[i]` on the default dictionary: 0 for a page with no recorded scroll; what is recorded is stated by `BaseFs.ReadScroll` |
| BaseFs.File.IsHighlightBlock | src/rmrf/base/fs.py:164-172 | a block is a highlight exactly when it is a text selection whose value has non-empty text |
| BaseFs.File.IsHandwritingBlock | src/rmrf/base/fs.py:174-180 | a block is handwriting exactly when it is a stroke whose value has points |
| BaseFs.ReadScroll | src/rmrf/base/fs.py:35-40 | page i of a freshly read file scrolls by the `verticalScroll` of entry i of `cPages`, or by 0 |
| BaseFs.ReadPageBlocks | src/rmrf/base/fs.py:193-194 | `get_page_blocks(i)` of a freshly read file gives the blocks of the last page file mapped to page i, and nothing when there is none |
| BaseFs.ReadLen | src/rmrf/base/fs.py:196-197 | `len(file)` of a freshly read file counts the distinct page ids its metadata names |
| BaseFs.File.Len | src/rmrf/base/fs.py:196-197 | `len(file)` is the size of the page-id map; `BaseFs.ReadLen` states what that counts |
| BaseFs.FileSystem.Parents | src/rmrf/base/fs.py:235 | the parent map has exactly the kept files as keys |
| BaseFs.FileSystem.constructor | src/rmrf/base/fs.py:209-222 | the first part of `__post_init__`: the root file "root" (its root metadata, its page state read, no children) and no kept files; `BaseFs.NewFileSystem` composes the rest |
| BaseFs.FileSystem.ParseHierarchy | src/rmrf/base/fs.py:255-266 | on the empty table, `add_node` for each id in turn and then `build_hierarchy`: it fails exactly when `KeptIds` does, with the first exception; otherwise the table holds exactly the kept ids in visiting order, each file with its merged metadata and its page state read, and every file's and the root's children are their children in that order |
| BaseFs.NewFileSystem | src/rmrf/base/fs.py:209-224 | the whole construction (root, `read_file_ids`, `parse_hierarchy`): it fails exactly when some `add_node` raises; otherwise a well-formed table of the kept files, each linked under its parent, or under the root when its parent is not kept |
| BaseFs.AddOutcome | src/rmrf/base/fs.py:226-231 | `add_node` on one document raises exactly when reading its pages, its visible name or its deleted flag raises, and keeps it exactly when all three read and it is not deleted |
| BaseFs.KeptIdsExactly | src/rmrf/base/fs.py:255-266 | the loop fails exactly when `add_node` raises for some id, with the exception of the first such id; otherwise it keeps exactly the ids whose document is kept, and no more ids than it visits |
| BaseFs.KeptIdsFailureStays | src/rmrf/base/fs.py:255-261 | once `add_node` has raised, the ids after it do not change the outcome |
| BaseFs.FileSystem.AddNode | src/rmrf/base/fs.py:226-231 | `add_node` raises exactly when reading the page map, the visible name (for the hash) or the deleted flag raises, in that order; returns nothing for a deleted file; otherwise makes a fresh file with its page state read, stores it under its id and keeps the table well formed; nothing is stored in the other cases |
| BaseFs.FileSystem.BuildHierarchy | src/rmrf/base/fs.py:233-239 | every kept file's children grow by its children in insertion order, and the root's by every file whose parent is not kept; the page state of every file is untouched |
| BaseFs.FileSystem.Visit | src/rmrf/base/fs.py:234-239 | one step of `build_hierarchy` extends the children lists by the visited file |
| BaseFs.FileSystem.Link | src/rmrf/base/fs.py:236-239 | the file is appended to the children of the kept parent, or to the root's; every other children list and every page state stays the same |
| BaseFs.TableAdd | src/rmrf/base/fs.py:226-231 | storing one more non-root file with a parent under its id keeps the file table well formed |
| BaseFs.ChildFilesSnoc | src/rmrf/base/fs.py:234-239 | one visit appends the file to the children of its parent when the parent is kept, to the root's otherwise, and to no other list |
| Hierarchy.Home | src/rmrf/fs.py:170-174 | a node joins the children of its parent exactly when the parent is a kept node, and the root's otherwise |
| Hierarchy.ChildIds | src/rmrf/fs.py:168-174 | every id appended to a children list is a kept node whose home is that list |
| Hierarchy.ChildIdsSnoc | src/rmrf/fs.py:169-174 | visiting one more node appends it to its home's list and to no other |
| Hierarchy.ChildIdsExactlyOnce | src/rmrf/fs.py:168-174 | every visited node joins exactly one children list, that of its home, and joins it once |
| Hierarchy.ChildIdsOrder | src/rmrf/fs.py:169 | each children list keeps the visiting order: of two ids in one list, the earlier was visited first |
| Hierarchy.ChildIdsWithin | src/rmrf/fs.py:169 | every id of a children list was visited |
| Hierarchy.FileId | src/rmrf/fs.py:206 | `name.split(".")[0]` is a prefix of the name without '.', and is empty exactly when the name is empty or starts with '.' |
| Hierarchy.ReadFileIds | src/rmrf/fs.py:203-210 | the loop collects exactly the non-empty ids before the first '.' of the names, none containing '.', and every name that does not start with '.' contributes its id |
| Markdown.Stripped | src/rmrf/markdown.py:192 | removing ".pdf", ".rm" and ".epub" never introduces a '/' |
| Markdown.PaperTitle | src/rmrf/markdown.py:189-194 | the paper title holds no " - ", ends the stripped name, and is the whole stripped name when it has no separator |
| Markdown.BookTitle | src/rmrf/markdown.py:197-199 | the book title holds no " - ", starts the stripped name, and is the whole stripped name when it has no separator |
| Markdown.PaperTitleRebuilds | src/rmrf/markdown.py:189-194 | a stripped name with a separator is some front part, the separator, then the paper title |
| Markdown.BookTitleRebuilds | src/rmrf/markdown.py:197-199 | a stripped name with a separator is the book title, the separator, then the rest |
| Markdown.CleanTitle | src/rmrf/markdown.py:161 | each double or single quote becomes a space, every other character is kept, and the length is unchanged |
| Markdown.CleanTitleIdempotent | src/rmrf/markdown.py:161 | a title without quotes is kept as it is, and cleaning twice is cleaning once |
| Markdown.HexDigit | src/rmrf/markdown.py:42 | a value below 16 becomes one lower-case hexadecimal digit |
| Markdown.Hex2 | src/rmrf/markdown.py:42 | `{r:02x}` writes a byte as exactly two lower-case hexadecimal digits |
| Markdown.Hex2RoundTrip | src/rmrf/markdown.py:42 | the two digits read back as the byte |
| Markdown.MarkLine | src/rmrf/markdown.py:41-43 | the filled highlight template is the fixed markup, six digits of colour and the text |
| Markdown.MarkLineReadBack | src/rmrf/markdown.py:41-43 | the rendered mark gives back the red, green and blue bytes of the colour and the text |
| Markdown.TagWord | src/rmrf/markdown.py:146 | a tag becomes '#' followed by the tag with every space turned into '_' |
| Markdown.TagLine | src/rmrf/markdown.py:144-149 | the tag line is empty exactly when there are no tags, and starts with "tags: " otherwise |
| Markdown.Link | src/rmrf/markdown.py:119-130 | an image link starts with "statics/" and ends with the image file's base name |
| Markdown.LinkBasename | src/rmrf/markdown.py:129 | joining the static directory and a base name keeps that base name last |
| Markdown.SortPages | src/rmrf/markdown.py:111-114 | sorting by page index raises `TypeError` exactly when there are two highlights or more and one has no page index |
| Markdown.RawGroups | src/rmrf/markdown.py:111-114 | with two highlights or more, grouping the sorted highlights on the raw page index gives the groups of the page number, each holding the highlights of its page in their original order, in ascending page order |
| Markdown.FewGroups | src/rmrf/markdown.py:111-114 | one highlight or none sorts to itself and makes one group or none |
| Markdown.SectionsShape | src/rmrf/markdown.py:111-157 | there is one section per group of the sorted highlights, in order |
| Markdown.Sections | src/rmrf/markdown.py:111-157 | the page sections of the highlights, one per group of the sorted highlights; stated by `Markdown.SectionsShape`, `Markdown.SectionsOrdered`, `Markdown.SectionsContent` and `Markdown.SectionsCover` |
| Markdown.SectionOf | src/rmrf/markdown.py:115-157 | one page section: its page, the tags of its last highlight and one line per highlight; stated by `Markdown.SectionsContent` |
| Markdown.SectionsOrdered | src/rmrf/markdown.py:111-157 | there are sections exactly when there are highlights, one per distinct page in ascending page order, and a page index of `None` only appears alone |
| Markdown.OrderedMany | src/rmrf/markdown.py:111-157 | with two highlights or more, every section has a page and the pages ascend strictly |
| Markdown.OneSection | src/rmrf/markdown.py:115-157 | the section of a group holding the highlights of one page matches that page |
| Markdown.SingleSection | src/rmrf/markdown.py:115-157 | the section of a single highlight matches its page |
| Markdown.SectionsContent | src/rmrf/markdown.py:115-157 | every section holds one item per highlight of its page, in their order, and the tags of the last of them |
| Markdown.ContentMany | src/rmrf/markdown.py:115-157 | `SectionsContent` for two highlights or more |
| Markdown.ContentOne | src/rmrf/markdown.py:115-157 | `SectionsContent` for a single highlight |
| Markdown.OneHighlight | src/rmrf/markdown.py:111-157 | a single highlight makes a single section |
| Markdown.SectionsCover | src/rmrf/markdown.py:111-157 | every highlight's page has a section |
| Markdown.NoneFree | src/rmrf/markdown.py:112 | when two highlights or more sort without raising, none lacks a page index, the result is sorted, and each page keeps its highlights in their original order |
| Markdown.Update | src/rmrf/markdown.py:73-186 | it fails exactly when the name is missing, when a stored stamp meets a missing or unreadable `lastModified`, or, when the note is not stale, when the sort of the highlights raises or `createdTime` or `lastModified` is missing or has a year outside 1..9999; the note is left alone exactly when not forced and the stored stamp is not older than the node's last modification; otherwise the old note is removed, the outcome carries the old stamp and the node's time, and a note is written (and reported updated) exactly when there are highlights, with the title from the getter, quotes cleaned, the creation time `created_time` gives, and the sections of the highlights |
| Markdown.MarkOf | src/rmrf/markdown.py:227-236 | a node is marked fresh exactly when the writer was called, reported an update and the stamp changed; skipped exactly when the writer was not called |
| Markdown.Calls | src/rmrf/markdown.py:217-250 | every path the walk hands to the writer starts with the prefix |
| Markdown.ChildCalls | src/rmrf/markdown.py:241-250 | every path handed to the writer below a node starts with the prefix |
| Markdown.Paths | src/rmrf/markdown.py:241-250 | every path of a subtree starts with the subtree's path |
| Markdown.ChildPaths | src/rmrf/markdown.py:248 | every path of the children starts with the parent's path |
| Markdown.WithPrefixAppend | src/rmrf/markdown.py:227 | keeping the paths with the prefix distributes over concatenation |
| Markdown.WithPrefixNone | src/rmrf/markdown.py:227 | no path with the prefix keeps nothing |
| Markdown.PrefixesRelated | src/rmrf/markdown.py:238 | two prefixes of one path extend one another |
| Markdown.PrunedNone | src/rmrf/markdown.py:238-239 | below a path that the prefix neither starts nor extends, no path starts with the prefix, so returning early skips no call |
| Markdown.CallsExactly | src/rmrf/markdown.py:217-250 | the walk hands to the writer exactly the nodes whose path starts with the prefix, in pre-order: pruning never skips one of them |
| Markdown.ChildCallsExactly | src/rmrf/markdown.py:241-250 | `CallsExactly` for the children of a node |
| Markdown.UpdateAll | src/rmrf/markdown.py:202-212 | from the root at "/Root", the writer is called on exactly the paths with the prefix, in pre-order |
| ExportMarkdown.ShouldUpdate | src/rmrf/export/markdown.py:55-77 | a forced note, a missing note and a note without an `updated:` stamp are rewritten; otherwise the note is rewritten exactly when its stamp is earlier than the node's last modification; reading that modification fails exactly as `Meta.LastModified` does, a missing `lastModified` being a KeyError |
| ExportMarkdown.ShouldUpdateStale | src/rmrf/export/markdown.py:72-75 | a note is left alone exactly when unforced and stamped no earlier than the node; a note stamped with the node's own last modification is left alone |
| ExportMarkdown.EntryShape | src/rmrf/export/markdown.py:109-135 | an image highlight becomes an image link under `statics/` keeping the image's basename and the page label; a text highlight becomes its colour and text |
| ExportMarkdown.EntryOf | src/rmrf/export/markdown.py:109-135 | one entry of a page: an image link or a text highlight's colour and text; stated by `ExportMarkdown.EntryShape` |
| ExportMarkdown.PageOf | src/rmrf/export/markdown.py:107-142 | a page carries its label, the tags of the group's last highlight and as many entries as the group has highlights |
| ExportMarkdown.EntriesOf | src/rmrf/export/markdown.py:109-135 | the inner loop yields exactly one entry per highlight, position by position |
| ExportMarkdown.PagesOf | src/rmrf/export/markdown.py:100-142 | one page per group, labelled with the page index of the group's first highlight |
| ExportMarkdown.PagesAsWritten | src/rmrf/export/markdown.py:100-106 | the loop as written: no pages exactly when no highlights, one page per group of the raw page index, labelled with that group's key |
| ExportMarkdown.PagesAsWrittenSplits | src/rmrf/export/markdown.py:100-106 | highlights on page -1, no page, page -1 give three pages all standing for page number -1, two of them with the same label |
| ExportMarkdown.Pages | src/rmrf/export/markdown.py:100-142 | the corrected loop (grouping on the sort key): no pages exactly when no highlights |
| ExportMarkdown.PagesMatch | src/rmrf/export/markdown.py:100-142 | every page holds, for its page number, one entry per highlight of that page in input order, with the tags of the last of them |
| ExportMarkdown.PagesOrdered | src/rmrf/export/markdown.py:100-106 | page numbers strictly ascend from page to page, so no page number appears twice |
| ExportMarkdown.KeysAscend | src/rmrf/export/markdown.py:100-106 | groups with ascending keys make pages with ascending page numbers |
| ExportMarkdown.PageAt | src/rmrf/export/markdown.py:100-142 | the page at any position holds exactly the highlights of its page number |
| ExportMarkdown.PagesShape | src/rmrf/export/markdown.py:100-142 | the pages are, position by position, the pages of the groups of the sorted highlights |
| ExportMarkdown.PageOfGroup | src/rmrf/export/markdown.py:107-142 | a group holding the highlights of one page number makes a page for that number holding exactly those highlights |
| ExportMarkdown.PagesCover | src/rmrf/export/markdown.py:100-142 | every highlight's page number has a page |
| ExportMarkdown.PagesAgree | src/rmrf/export/markdown.py:100-106 | without a highlight labelled -1 the loop as written and the corrected loop make the same pages |
| ExportMarkdown.Update | src/rmrf/export/markdown.py:79-201 | it fails exactly when the staleness test fails or, for a note to update, the name is missing or `createdTime` or `lastModified` is missing or has a year outside 1..9999; a note that should not be updated is untouched and reported not updated, and only such a note is left untouched; the previous stamp is never reported; otherwise the note is written exactly when there are highlights, with the getter's title, its cleaned form as title and alias, the creation time `created_time` gives, the node's last modification as stamp and the pages of the highlights grouped as corrected for lines 100-106 (one section per page), and the outcome reports updated exactly when written |
| ExportMarkdown.FreshWhenWritten | src/rmrf/export/markdown.py:261-270 | a successful update marks its node fresh exactly when it wrote the note |
| ExportMarkdown.PaperTitle | src/rmrf/export/markdown.py:204-213 | the paper title holds no `/` and no `" - "` and ends the stripped basename of the name |
| ExportMarkdown.BookTitle | src/rmrf/export/markdown.py:216-224 | splitting at the first `" - "` gives the book title of the basename; it holds no `/` and starts the stripped basename |
| Common.Int | src/rmrf/svg.py:307-322 | Python's `int()` on a real truncates toward zero: the result is within one of the input, on the side of zero |
| Common.Ceil | src/rmrf/svg.py:307-322 | `math.ceil` gives the least integer not below the input |
| Common.Max | src/rmrf/writing_tools.py:94-96 | `max` is one of its arguments and at least both |
| Common.Min | src/rmrf/writing_tools.py:94-96 | `min` is one of its arguments and at most both |
| Seqs.MinOf | src/rmrf/parse.py:207-210 | the minimum of a non-empty sequence is one of its elements and at most every element |
| Seqs.MaxOf | src/rmrf/parse.py:207-210 | the maximum of a non-empty sequence is one of its elements and at least every element |
| Seqs.SortBy | src/rmrf/markdown.py:111-114 | `sorted(..., key=...)` keeps the length |
| Seqs.SortByCorrect | src/rmrf/markdown.py:111-114 | the stable sort is ordered by key and keeps, for every key, the elements of that key in their input order (so it is a permutation) |
| Seqs.SortBySorted | src/rmrf/parse.py:268 | sorting an already ordered sequence changes nothing |
| Seqs.SortByMembers | src/rmrf/markdown.py:111-114 | an element is in the sorted sequence exactly when it is in the input |
| Seqs.GroupBy | src/rmrf/markdown.py:111-114 | `itertools.groupby` makes no group exactly for an empty input, only non-empty groups whose members all have the group's key, and a last group with the last element's key |
| Seqs.GroupByMaximal | src/rmrf/markdown.py:111-114 | the runs are maximal: neighbouring groups have different keys |
| Seqs.GroupByMembers | src/rmrf/markdown.py:111-114 | the groups, concatenated, give back the input |
| Seqs.GroupBySortedKeys | src/rmrf/markdown.py:111-114 | grouping a sequence ordered by key gives strictly ascending keys |
| Seqs.GroupBySortedFilter | src/rmrf/markdown.py:111-114 | grouping a sequence ordered by key puts in each group exactly the elements of its key |
| Seqs.GroupByAgree | src/rmrf/export/markdown.py:100-106 | two keys that tell the same elements apart make the same groups |
| Strings.Split | src/rmrf/markdown.py:190-199 | `str.split(sep)` gives at least one part |
| Strings.RemoveAll | src/rmrf/markdown.py:192 | `str.replace(pat, "")` never lengthens the string |
| Strings.RemoveAllFrom | src/rmrf/markdown.py:192 | removing a pattern adds no character that was not there |
| Strings.SplitJoin | src/rmrf/markdown.py:190-199 | joining the parts with the separator gives back the string |
| Strings.SplitSeveral | src/rmrf/markdown.py:190-199 | there are two parts or more exactly when the string contains the separator |
| Strings.SplitFirst | src/rmrf/markdown.py:199 | the first part starts the string and does not contain the separator |
| Strings.SplitPartsFree | src/rmrf/markdown.py:190-194 | no part contains the separator |
| Strings.SplitOnce | src/rmrf/export/markdown.py:219-224 | `str.split(sep, 1)` gives one or two parts |
| Strings.SplitOnceFirst | src/rmrf/export/markdown.py:219-224 | splitting once gives the same first part as splitting at every separator |
| Strings.Basename | src/rmrf/markdown.py:119 | `os.path.basename` is the suffix after the last `/` and holds no `/` |
| Strings.ReplaceChar | src/rmrf/markdown.py:161 | every occurrence of one character is replaced and nothing else changes |

## Left out

- Decoding `.rm` files (`rmscene.read_blocks`) is not modelled: the decoded blocks are inputs (`Scene.Block`), one variant per kind of item the code inspects.
- Reading files, globbing directories, JSON loading, temporary files, copying images into `statics/` and removing the originals are not modelled. What they read becomes a parameter: metadata records, lists of names, page files with their blocks, and the stored note's `updated:` stamp.
- PDF access through `fitz` (opening documents, page rectangles, `get_text("words")`, `get_pixmap`) is a parameter (`Parse.Pdf`). PIL image saving and the base64 PNG background of `blocks_to_svg` are reduced to whether there is a background image.
- `parse.py` calls `rmc`'s own `blocks_to_svg` and palette, not the local ones. The model keeps the strokes that call would receive (the drawing record) and takes the palette as a parameter; the rendering itself is not modelled.
- Parse.ExtractHighlights: the corrected scan keeps each handwritten stroke with the colour `get_color` read for it, which is what the overwrite of src/rmrf/parse.py:203 means to attach to the stroke; the colour is recorded but, like the rest of the rendering, not drawn.
- SVG output is a structured value (polylines with their width, opacity and vertices; text spans; rectangles), not the formatted string. `.3f` number formatting and string escaping are not modelled.
- Floating point is modelled as `real`. The non-integer powers (`** 2.1`, `** 1.8`, `** 1.5`) go through an uninterpreted parameter `pow`, and π is the literal 3.141592653589793.
- WritingTools.SegmentWidth: the ballpoint, marker, brush and calligraphy formulas are modelled, but no bound is stated for them, since their inputs (speed, direction, pressure) are unbounded reals here; only the pencil bound and the base-width cases are stated.
- Clocks and dates are not modelled: `datetime.fromtimestamp`, `strftime` and `strptime` are replaced by the instant as an integer number of milliseconds, and the current time is a parameter. The year test of `created_time` is stated on that instant.
- Meta.CreatedTime: the year window of `created_time` (2000-01-01 to 2100-01-01) and the range 1..9999 that `fromtimestamp` accepts are stated in UTC, and the OverflowError or OSError it may raise instead of ValueError is reported as ValueError. `datetime.fromtimestamp` in src/rmrf/fs.py:88 and src/rmrf/base/fs.py:116 reads the year in the local time zone; within that zone's offset of either boundary the model and the source can decide differently.
- The `hashlib.shake_256` digest that names a note's static directory is a parameter (`zid`).
- Jinja template rendering of notes is not modelled: a note is the record of values the template receives (`ExportMarkdown.Note`, `Markdown.Note`).
- Markdown.MarkLine: `highlight_template` and `page_template` are arguments of the `MarkdownWriter` constructor (src/rmrf/markdown.py:61-63); the model fixes them to their defaults, `Highlight_Template` and `Page_Template`, and does not model a writer built with other templates.
- The Zotero branch of the export writer (`src/rmrf/export/markdown.py:148-175`) is not modelled: it calls a network client.
- Printing the tree with `rich` is not modelled; `update_notes` is modelled as the sequence of calls it makes to the writer and the mark it gives each node.
- Markdown.UpdateAll: the walk runs over a value snapshot of the node tree (`Markdown.Tree`), not over the live `Node` objects, so aliasing between nodes is not captured. It also lists the calls as if every `writer.update` returned: in the source the first one that raises (a missing name, a sort that meets `None`, a missing timestamp) ends the whole walk, and `node.name` in the tree labels (src/rmrf/markdown.py:232-236) and the child paths (src/rmrf/markdown.py:248) raises `KeyError` for a node without `visibleName`; the model neither stops the walk nor raises there.
- Markdown.TagLine: a page's tags are a Python set, and the order in which it is iterated is not determined by the code; the tag line takes that order as a sequence.
- `src/rmrf/markdown.py` imports its highlight types from `src/rmrf/parse.py`, which defines none. The model feeds that writer the `Highlight` records of `src/rmrf/base/fs.py`.
- Node properties that no modelled operation reads (`last_opened`, `orientation`, zoom mode, `is_collection` and the other pass-through metadata) are not modelled.
- `get_metadata` and `get_content` only load JSON files and are not modelled; `parse_hierarchy` takes their merge `metadata |= content` as the parameter `meta`.
- BaseFs.FileSystem.constructor: `__post_init__` is modelled in two parts, the constructor and `BaseFs.NewFileSystem`; the `relative_to(user_home)` of src/rmrf/base/fs.py:214, which raises ValueError when a directory is not under the home directory, is not modelled, since paths are not; the order in which `parse_hierarchy` visits the set of ids is a parameter `ids` of `BaseFs.NewFileSystem`, which only requires it to list that set once each.
- `cli.py`, `zotero_helper.py`, `utils/visual.py`, `utils/hooked_stream.py` and the package `__init__` files are not part of this model.

## Findings

| source | as written | input that shows it | evidently intended | confidence | as-written member | corrected member |
|---|---|---|---|---|---|---|
| src/rmrf/svg.py:114-116 | `draw_stroke` returns `None` for a stroke block without a line, and `blocks_to_svg` appends that result to a string | a stroke block whose item has no value | nothing is drawn for that block | high, not executed | Svg.EmptyStrokeRaises | Svg.BlocksToSvg |
| src/rmrf/parse.py:188 | the page of a text highlight is `page_index or -1`, and `0 or -1` is -1 | a text selection on the first page (page index 0) | the first page keeps index 0; only an unknown page becomes -1 | high, not executed | Parse.FirstPageTextMoves | Parse.ExtractHighlights |
| src/rmrf/parse.py:203 | the colour read for a handwritten stroke is written to `block.value.color.value`, but a stroke block has no `value` attribute (its value is `block.item.value`), so the assignment raises `AttributeError` | a page file holding one live ballpoint stroke with one point | the stroke is drawn or cropped carrying the colour `get_color` read | high, not executed | Parse.StrokeRaises | Parse.ExtractHighlights |
| src/rmrf/parse.py:268 | the result is sorted on the raw page index, and a drawing record of an unknown page has `None` there, which cannot be compared with an `int`; only reachable once line 203 is corrected, since as written no drawing record is ever produced (`Parse.ExtractAsWritten`) | a record on page 3 plus a stroke on a page file not in the page map | the records are sorted with an unknown page read as -1 | medium, not executed | Parse.UnknownPageSortRaises | Parse.ExtractSorted |
| src/rmrf/export/markdown.py:100-106 | highlights are sorted with `None` read as -1 but grouped on the raw page index | highlights on page -1, on no page, then on page -1 | one page section per page number | medium, not executed | ExportMarkdown.PagesAsWrittenSplits | ExportMarkdown.PagesOrdered |
