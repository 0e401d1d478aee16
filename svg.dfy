/** `svg.py`: the canvas size from the stroke limits, the segmentation of a
    stroke into polylines, the spans of a text block, and the dispatch of
    blocks into one SVG document.

    The SVG text itself (markup, `.3f` number formatting, the fixed header and
    style sheet) is not modelled: each drawing operation returns the values
    it would format, in the order it would write them. */
module Svg {
  import opened Common
  import opened Strings
  import Scene
  import WT = WritingTools

  const ScreenWidth: int := 1404
  const ScreenHeight: int := 1872
  const XposShift: real := 702.0

  /** `SvgDocInfo` */
  datatype DocInfo = DocInfo(height: int, width: int, xposDelta: real, yposDelta: real)

  /** `(xmin, xmax, ymin, ymax)`; `None` stands for the infinities the source
      starts from when there is no point at all. */
  datatype Limits = Limits(xmin: real, xmax: real, ymin: real, ymax: real)

  // ---------------------------------------------------------------------
  // get_limits

  /** The points `get_limits` looks at in one block: those of a stroke item
      that has a value. */
  function LinePoints(b: Scene.Block): seq<Scene.Point> {
    if b.LineBlock? && b.line.Some? then b.line.value.points else []
  }

  function AllPoints(blocks: seq<Scene.Block>): seq<Scene.Point> {
    if blocks == [] then [] else AllPoints(blocks[..|blocks| - 1]) + LinePoints(blocks[|blocks| - 1])
  }

  ghost predicate Covers(l: Limits, pts: seq<Scene.Point>) {
    forall i :: 0 <= i < |pts| ==> l.xmin <= pts[i].x <= l.xmax && l.ymin <= pts[i].y <= l.ymax
  }

  ghost predicate Attained(l: Limits, pts: seq<Scene.Point>) {
    (exists i :: 0 <= i < |pts| && pts[i].x == l.xmin) &&
    (exists i :: 0 <= i < |pts| && pts[i].x == l.xmax) &&
    (exists i :: 0 <= i < |pts| && pts[i].y == l.ymin) &&
    (exists i :: 0 <= i < |pts| && pts[i].y == l.ymax)
  }

  /** The limits of `pts` are the smallest box holding them all. */
  ghost predicate Tight(lim: Option<Limits>, pts: seq<Scene.Point>) {
    (lim.None? <==> pts == []) &&
    (lim.Some? ==> Covers(lim.value, pts) && Attained(lim.value, pts))
  }

  /** One step of the loop: `min`/`max` with the next point. */
  function Extend(lim: Option<Limits>, p: Scene.Point): Limits {
    match lim
    case None => Limits(p.x, p.x, p.y, p.y)
    case Some(l) => Limits(Min(l.xmin, p.x), Max(l.xmax, p.x), Min(l.ymin, p.y), Max(l.ymax, p.y))
  }

  lemma ExtendTight(lim: Option<Limits>, pts: seq<Scene.Point>, p: Scene.Point)
    requires Tight(lim, pts)
    ensures Tight(Some(Extend(lim, p)), pts + [p])
  {
    var q := pts + [p];
    var e := Extend(lim, p);
    assert q[|pts|] == p;
    assert forall i :: 0 <= i < |pts| ==> q[i] == pts[i];
    if lim.Some? {
      var l := lim.value;
      if e.xmin != p.x {
        var i :| 0 <= i < |pts| && pts[i].x == l.xmin;
        assert q[i].x == e.xmin;
      }
      if e.xmax != p.x {
        var i :| 0 <= i < |pts| && pts[i].x == l.xmax;
        assert q[i].x == e.xmax;
      }
      if e.ymin != p.y {
        var i :| 0 <= i < |pts| && pts[i].y == l.ymin;
        assert q[i].y == e.ymin;
      }
      if e.ymax != p.y {
        var i :| 0 <= i < |pts| && pts[i].y == l.ymax;
        assert q[i].y == e.ymax;
      }
    }
  }

  /** The limits of a point sequence, folded from the left as the loop does. */
  function LimitsOf(pts: seq<Scene.Point>): Option<Limits> {
    if pts == [] then None else Some(Extend(LimitsOf(pts[..|pts| - 1]), pts[|pts| - 1]))
  }

  /** The fold computes the smallest box that holds every point and touches
      one on each side; it is absent exactly when there is no point. */
  lemma {:induction false} LimitsOfTight(pts: seq<Scene.Point>)
    ensures Tight(LimitsOf(pts), pts)
    decreases |pts|
  {
    if pts != [] {
      var init := pts[..|pts| - 1];
      LimitsOfTight(init);
      ExtendTight(LimitsOf(init), init, pts[|pts| - 1]);
      assert init + [pts[|pts| - 1]] == pts;
    }
  }

  lemma LimitsOfSnoc(s: seq<Scene.Point>, p: Scene.Point)
    ensures LimitsOf(s + [p]) == Some(Extend(LimitsOf(s), p))
  {
    assert (s + [p])[..|s|] == s;
  }

  lemma AllPointsSnoc(blocks: seq<Scene.Block>, i: nat)
    requires i < |blocks|
    ensures AllPoints(blocks[..i + 1]) == AllPoints(blocks[..i]) + LinePoints(blocks[i])
  {
    assert blocks[..i + 1][..i] == blocks[..i];
  }

  /** `get_limits(blocks)`: the bounding box of every point of every stroke
      item with a value; text blocks and empty items are skipped. */
  method GetLimits(blocks: seq<Scene.Block>) returns (lim: Option<Limits>)
    ensures lim == LimitsOf(AllPoints(blocks))
    ensures lim.None? <==> AllPoints(blocks) == []
    ensures lim.Some? ==> Covers(lim.value, AllPoints(blocks)) && Attained(lim.value, AllPoints(blocks))
  {
    lim := None;
    for i := 0 to |blocks|
      invariant lim == LimitsOf(AllPoints(blocks[..i]))
    {
      AllPointsSnoc(blocks, i);
      ghost var before := AllPoints(blocks[..i]);
      var b := blocks[i];
      if !b.LineBlock? || b.line.None? {
        assert before + [] == before;
        continue;
      }
      lim := ExtendLimits(lim, before, b.line.value.points);
    }
    assert blocks[..|blocks|] == blocks;
    assert Tight(lim, AllPoints(blocks)) by {
      LimitsOfTight(AllPoints(blocks));
    }
  }

  /** The inner loop of `get_limits`: the points of one stroke widen the
      limits found so far. */
  method ExtendLimits(lim0: Option<Limits>, ghost before: seq<Scene.Point>, pts: seq<Scene.Point>) returns (lim: Option<Limits>)
    requires lim0 == LimitsOf(before)
    ensures lim == LimitsOf(before + pts)
  {
    lim := lim0;
    assert before + pts[..0] == before;
    for j := 0 to |pts|
      invariant lim == LimitsOf(before + pts[..j])
    {
      var p := pts[j];
      LimitsOfSnoc(before + pts[..j], p);
      assert before + pts[..j + 1] == (before + pts[..j]) + [p];
      if lim.None? {
        lim := Some(Limits(p.x, p.x, p.y, p.y));
      } else {
        var l := lim.value;
        lim := Some(Limits(Min(l.xmin, p.x), Max(l.xmax, p.x), Min(l.ymin, p.y), Max(l.ymax, p.y)));
      }
    }
    assert pts[..|pts|] == pts;
  }

  // ---------------------------------------------------------------------
  // get_dimensions

  /** `get_dimensions`: the canvas is the screen, widened to the extent of
      the strokes and rounded up; the shifts pass through unchanged. */
  function GetDimensions(blocks: seq<Scene.Block>, xposShift: real, yposShift: real,
                         screenWidth: int, screenHeight: int): (info: DocInfo)
    ensures info.xposDelta == xposShift && info.yposDelta == yposShift
    ensures info.width >= screenWidth && info.height >= screenHeight
    ensures var lim := LimitsOf(AllPoints(blocks));
      lim.Some? ==> info.width as real >= lim.value.xmax - lim.value.xmin &&
                    info.height as real >= lim.value.ymax - lim.value.ymin
    ensures var lim := LimitsOf(AllPoints(blocks));
      (info.width - 1) as real < (if lim.Some? then Max(screenWidth as real, lim.value.xmax - lim.value.xmin) else screenWidth as real) &&
      (info.height - 1) as real < (if lim.Some? then Max(screenHeight as real, lim.value.ymax - lim.value.ymin) else screenHeight as real)
  {
    var lim := LimitsOf(AllPoints(blocks));
    var spanX := if lim.Some? then Max(screenWidth as real, lim.value.xmax - lim.value.xmin) else screenWidth as real;
    var spanY := if lim.Some? then Max(screenHeight as real, lim.value.ymax - lim.value.ymin) else screenHeight as real;
    DocInfo(Ceil(spanY), Ceil(spanX), xposShift, yposShift)
  }

  /** With the shift `get_dimensions` is given, a point to the left of
      `-xpos_shift` lands outside the canvas it computes: `get_dimensions`
      widens the canvas but does not move the strokes into it. */
  lemma DimensionsMayNotContain()
    ensures var p := Scene.Point(-1000.0, 0.0, 0.0, 0.0, 0.0, 0.0);
      var blocks := [Scene.LineBlock(0, Some(Scene.Line(Scene.Black, Scene.Fineliner1, [p], 1.0)), [])];
      var info := GetDimensions(blocks, XposShift, 0.0, ScreenWidth, ScreenHeight);
      !InCanvas(info, Shift(info, p))
  {
    var p := Scene.Point(-1000.0, 0.0, 0.0, 0.0, 0.0, 0.0);
    var blocks := [Scene.LineBlock(0, Some(Scene.Line(Scene.Black, Scene.Fineliner1, [p], 1.0)), [])];
    assert blocks[..0] == [];
    assert AllPoints(blocks) == [p];
  }

  /** Shifting by minus the lower limits puts every point on the canvas, so
      the assertions of `draw_stroke` all hold. */
  lemma ShiftByMinimumFits(blocks: seq<Scene.Block>, screenWidth: int, screenHeight: int)
    requires LimitsOf(AllPoints(blocks)).Some?
    ensures var l := LimitsOf(AllPoints(blocks)).value;
      var info := GetDimensions(blocks, -l.xmin, -l.ymin, screenWidth, screenHeight);
      AllInCanvas(info, AllPoints(blocks))
  {
    var pts := AllPoints(blocks);
    var l := LimitsOf(pts).value;
    var info := GetDimensions(blocks, -l.xmin, -l.ymin, screenWidth, screenHeight);
    assert Covers(l, pts) by {
      LimitsOfTight(pts);
    }
    forall i | 0 <= i < |pts| ensures InCanvas(info, Shift(info, pts[i])) {
      ShiftFits(info, l, pts[i]);
    }
    AllInCanvasEach(info, pts);
  }

  lemma ShiftFits(info: DocInfo, l: Limits, p: Scene.Point)
    requires info.xposDelta == -l.xmin && info.yposDelta == -l.ymin
    requires info.width as real >= l.xmax - l.xmin && info.height as real >= l.ymax - l.ymin
    requires l.xmin <= p.x <= l.xmax && l.ymin <= p.y <= l.ymax
    ensures InCanvas(info, Shift(info, p))
  {
  }

  // ---------------------------------------------------------------------
  // draw_stroke

  datatype Vertex = Vertex(x: real, y: real)

  /** One `<polyline>` opened inside the loop: its width, its opacity and its
      points. */
  datatype Segment = Segment(width: real, opacity: real, points: seq<Vertex>)

  /** What `draw_stroke` writes: the pen (whose stroke colour, width, opacity
      and line cap style the leading empty polyline and every segment) and
      the segments. */
  datatype Stroke = Stroke(pen: WT.Pen, segments: seq<Segment>)

  function Shift(info: DocInfo, p: Scene.Point): Vertex {
    Vertex(p.x + info.xposDelta, p.y + info.yposDelta)
  }

  function ShiftAll(info: DocInfo, ps: seq<Scene.Point>): (vs: seq<Vertex>)
    ensures |vs| == |ps| && forall i :: 0 <= i < |ps| ==> vs[i] == Shift(info, ps[i])
  {
    seq(|ps|, i requires 0 <= i < |ps| => Shift(info, ps[i]))
  }

  /** The two assertions of the loop. */
  predicate InCanvas(info: DocInfo, v: Vertex) {
    0.0 <= v.x <= info.width as real && 0.0 <= v.y <= info.height as real
  }

  /** Every point of `pts`, once shifted, passes the assertions. */
  predicate AllInCanvas(info: DocInfo, pts: seq<Scene.Point>) {
    pts == [] || (AllInCanvas(info, pts[..|pts| - 1]) && InCanvas(info, Shift(info, pts[|pts| - 1])))
  }

  lemma {:induction false} AllInCanvasEach(info: DocInfo, pts: seq<Scene.Point>)
    ensures AllInCanvas(info, pts) <==> forall i :: 0 <= i < |pts| ==> InCanvas(info, Shift(info, pts[i]))
    decreases |pts|
  {
    if pts != [] {
      var init := pts[..|pts| - 1];
      AllInCanvasEach(info, init);
      assert forall i :: 0 <= i < |init| ==> init[i] == pts[i];
    }
  }

  /** What the loop body does with point `i`: a point whose index is a
      multiple of the segment length opens a new segment, which starts with
      the previous point when there is one; every other point extends the
      last segment. */
  function AddPoint(pen: WT.Pen, info: DocInfo, segs: seq<Segment>, prev: Option<Vertex>, i: nat, p: Scene.Point,
                    pow: (real, real) -> real): seq<Segment>
    requires pen.segmentLength > 0
    requires i % pen.segmentLength != 0 ==> |segs| > 0
  {
    var v := Shift(info, p);
    if i % pen.segmentLength == 0 then
      var lastWidth := if segs == [] then 0.0 else segs[|segs| - 1].width;
      var carried := if prev.Some? then [prev.value] else [];
      segs + [Segment(WT.SegmentWidth(pen, p, lastWidth, pow), WT.SegmentOpacity(pen, p, lastWidth), carried + [v])]
    else
      var last := segs[|segs| - 1];
      segs[..|segs| - 1] + [last.(points := last.points + [v])]
  }

  /** The segments the loop has built after the points `pts`. */
  function Segments(pen: WT.Pen, info: DocInfo, pts: seq<Scene.Point>, pow: (real, real) -> real): (segs: seq<Segment>)
    requires pen.segmentLength > 0
    ensures |segs| > 0 <==> |pts| > 0
    decreases |pts|
  {
    if pts == [] then []
    else
      var i := |pts| - 1;
      var segs := Segments(pen, info, pts[..i], pow);
      assert i == 0 ==> i % pen.segmentLength == 0;
      AddPoint(pen, info, segs, if i == 0 then None else Some(Shift(info, pts[i - 1])), i, pts[i], pow)
  }

  lemma SegmentsSnoc(pen: WT.Pen, info: DocInfo, pts: seq<Scene.Point>, i: nat, pow: (real, real) -> real)
    requires pen.segmentLength > 0 && i < |pts|
    ensures i % pen.segmentLength != 0 ==> |Segments(pen, info, pts[..i], pow)| > 0
    ensures Segments(pen, info, pts[..i + 1], pow) ==
      AddPoint(pen, info, Segments(pen, info, pts[..i], pow), if i == 0 then None else Some(Shift(info, pts[i - 1])), i, pts[i], pow)
  {
    assert pts[..i + 1][..i] == pts[..i];
    assert i == 0 ==> i % pen.segmentLength == 0;
  }

  /** A stroke of `n` points is drawn as ceil(n / L) segments. */
  lemma {:induction false} SegmentsCount(pen: WT.Pen, info: DocInfo, pts: seq<Scene.Point>, pow: (real, real) -> real)
    requires pen.segmentLength > 0
    ensures |Segments(pen, info, pts, pow)| == (|pts| + pen.segmentLength - 1) / pen.segmentLength
    decreases |pts|
  {
    if pts != [] {
      var i := |pts| - 1;
      SegmentsCount(pen, info, pts[..i], pow);
      CountStep(i, pen.segmentLength);
    }
  }

  lemma MulAtLeast(x: int, l: int)
    requires x >= 1 && l > 0
    ensures x * l >= l
    decreases x
  {
    if x > 1 {
      MulAtLeast(x - 1, l);
      assert x * l == (x - 1) * l + l;
    }
  }

  lemma DivUnique(a: int, q: int, r: int, l: int)
    requires l > 0 && 0 <= r < l && a == q * l + r
    ensures a / l == q
  {
    var d, m := a / l, a % l;
    assert a == d * l + m;
    assert (d - q) * l == d * l - q * l == r - m;
    if d > q {
      MulAtLeast(d - q, l);
      assert false;
    } else if d < q {
      MulAtLeast(q - d, l);
      assert false;
    }
  }

  /** How the number of segments, ceil(i / l), moves when point `i` is added. */
  lemma CountStep(i: nat, l: nat)
    requires l > 0
    ensures i % l == 0 ==> (i + 1 + l - 1) / l == (i + l - 1) / l + 1 && i == ((i + l - 1) / l) * l
    ensures i % l != 0 ==> (i + 1 + l - 1) / l == (i + l - 1) / l && (i + l - 1) / l >= 1
    ensures i % l != 0 ==> ((i + l - 1) / l - 1) * l < i < ((i + l - 1) / l) * l
  {
    var q, r := i / l, i % l;
    assert i == q * l + r;
    if r == 0 {
      DivUnique(i + l - 1, q, l - 1, l);
      DivUnique(i + l, q + 1, 0, l);
    } else {
      DivUnique(i + l - 1, q + 1, r - 1, l);
      DivUnique(i + l, q + 1, r, l);
    }
  }

  /** `draw_stroke(block, svg_doc_info, color)`: nothing for an empty item, the
      pen's error if the tool is unknown, an assertion error if a shifted point
      falls off the canvas, and otherwise the pen and its segments. */
  function DrawStrokeSpec(b: Scene.Block, info: DocInfo, color: WT.ColorRef, pow: (real, real) -> real): Result<Option<Stroke>, Error>
    requires b.LineBlock?
  {
    match b.line
    case None => Success(None)
    case Some(line) =>
      var pen :- WT.Create(line.tool, color, line.thicknessScale, pow);
      if !AllInCanvas(info, line.points) then Failure(OutOfCanvas)
      else Success(Some(Stroke(pen, Segments(pen, info, line.points, pow))))
  }

  /** `draw_stroke`: the empty item, then the pen, then the loop over the
      points. */
  method DrawStroke(b: Scene.Block, info: DocInfo, color: WT.ColorRef, pow: (real, real) -> real)
    returns (r: Result<Option<Stroke>, Error>)
    requires b.LineBlock?
    ensures r == DrawStrokeSpec(b, info, color, pow)
  {
    if b.line.None? {
      return Success(None);
    }
    var line := b.line.value;
    var created := WT.Create(line.tool, color, line.thicknessScale, pow);
    if created.Failure? {
      return Failure(created.error);
    }
    var pen := created.value;
    var segs := DrawPoints(pen, info, line.points, pow);
    if segs.Failure? {
      return Failure(segs.error);
    }
    return Success(Some(Stroke(pen, segs.value)));
  }

  /** The loop of `draw_stroke`: an assertion error at the first point off
      the canvas, otherwise the segments. The source's `-1.0` sentinel for
      "no previous point" is kept: the assertions have already put every
      earlier point at a non-negative `x`, so it is never confused with a
      point. */
  method DrawPoints(pen: WT.Pen, info: DocInfo, pts: seq<Scene.Point>, pow: (real, real) -> real)
    returns (r: Result<seq<Segment>, Error>)
    requires pen.segmentLength > 0
    ensures r == if AllInCanvas(info, pts) then Success(Segments(pen, info, pts, pow)) else Failure(OutOfCanvas)
  {
    var segs: seq<Segment> := [];
    var lastX, lastY := -1.0, -1.0;
    var lastSegmentWidth := 0.0;
    var segmentWidth := 0.0;
    for i := 0 to |pts|
      invariant StrokeLoop(pen, info, pts, i, pow, segs, lastX, lastY, lastSegmentWidth)
      invariant lastSegmentWidth == segmentWidth
    {
      var p := pts[i];
      var x, y := p.x + info.xposDelta, p.y + info.yposDelta;
      if !(0.0 <= x <= info.width as real) || !(0.0 <= y <= info.height as real) {
        OutsideStays(info, pts, i);
        return Failure(OutOfCanvas);
      }
      ghost var before := segs;
      if i % pen.segmentLength == 0 {
        segmentWidth := WT.SegmentWidth(pen, p, lastSegmentWidth, pow);
        var segmentOpacity := WT.SegmentOpacity(pen, p, lastSegmentWidth);
        var carried := if lastX != -1.0 then [Vertex(lastX, lastY)] else [];
        segs := segs + [Segment(segmentWidth, segmentOpacity, carried + [Vertex(x, y)])];
        OpenPoint(pen, info, pts, i, pow, before, lastX, lastY, lastSegmentWidth, segs);
      } else {
        var last := segs[|segs| - 1];
        segs := segs[..|segs| - 1] + [last.(points := last.points + [Vertex(x, y)])];
        GrowPoint(pen, info, pts, i, pow, before, lastX, lastY, lastSegmentWidth, segs);
      }
      lastX, lastY := x, y;
      lastSegmentWidth := segmentWidth;
    }
    assert pts[..|pts|] == pts;
    return Success(segs);
  }

  /** The variables of the loop of `draw_stroke` after `i` points: the
      segments so far, every point on the canvas, the previous point (or the
      `-1.0` sentinel) and the width of the last segment. */
  ghost predicate StrokeLoop(pen: WT.Pen, info: DocInfo, pts: seq<Scene.Point>, i: nat, pow: (real, real) -> real,
                        segs: seq<Segment>, lastX: real, lastY: real, lastWidth: real)
    requires pen.segmentLength > 0
  {
    i <= |pts| && segs == Segments(pen, info, pts[..i], pow) && AllInCanvas(info, pts[..i]) &&
    (i == 0 ==> lastX == -1.0 && lastWidth == 0.0) &&
    (i > 0 ==> Vertex(lastX, lastY) == Shift(info, pts[i - 1]) && lastX >= 0.0 &&
               |segs| > 0 && lastWidth == segs[|segs| - 1].width)
  }

  /** One turn of the loop of `draw_stroke` on a point that passes the
      assertions and opens a segment. */
  lemma OpenPoint(pen: WT.Pen, info: DocInfo, pts: seq<Scene.Point>, i: nat, pow: (real, real) -> real,
                  segs: seq<Segment>, lastX: real, lastY: real, lastWidth: real, next: seq<Segment>)
    requires pen.segmentLength > 0 && i < |pts| && i % pen.segmentLength == 0
    requires StrokeLoop(pen, info, pts, i, pow, segs, lastX, lastY, lastWidth)
    requires var x, y := pts[i].x + info.xposDelta, pts[i].y + info.yposDelta;
      0.0 <= x <= info.width as real && 0.0 <= y <= info.height as real &&
      next == segs + [Segment(WT.SegmentWidth(pen, pts[i], lastWidth, pow), WT.SegmentOpacity(pen, pts[i], lastWidth),
                              (if lastX != -1.0 then [Vertex(lastX, lastY)] else []) + [Vertex(x, y)])]
    ensures StrokeLoop(pen, info, pts, i + 1, pow, next, pts[i].x + info.xposDelta, pts[i].y + info.yposDelta,
                       WT.SegmentWidth(pen, pts[i], lastWidth, pow))
  {
    assert pts[..i + 1][..i] == pts[..i];
    SegmentsSnoc(pen, info, pts, i, pow);
  }

  /** One turn of the loop of `draw_stroke` on a point that passes the
      assertions and extends the last segment. */
  lemma GrowPoint(pen: WT.Pen, info: DocInfo, pts: seq<Scene.Point>, i: nat, pow: (real, real) -> real,
                  segs: seq<Segment>, lastX: real, lastY: real, lastWidth: real, next: seq<Segment>)
    requires pen.segmentLength > 0 && i < |pts| && i % pen.segmentLength != 0
    requires StrokeLoop(pen, info, pts, i, pow, segs, lastX, lastY, lastWidth)
    requires var x, y := pts[i].x + info.xposDelta, pts[i].y + info.yposDelta;
      0.0 <= x <= info.width as real && 0.0 <= y <= info.height as real && |segs| > 0 &&
      next == segs[..|segs| - 1] + [segs[|segs| - 1].(points := segs[|segs| - 1].points + [Vertex(x, y)])]
    ensures StrokeLoop(pen, info, pts, i + 1, pow, next, pts[i].x + info.xposDelta, pts[i].y + info.yposDelta, lastWidth)
  {
    assert pts[..i + 1][..i] == pts[..i];
    SegmentsSnoc(pen, info, pts, i, pow);
  }

  /** One point off the canvas makes the whole stroke fail. */
  lemma OutsideStays(info: DocInfo, pts: seq<Scene.Point>, i: nat)
    requires i < |pts| && !InCanvas(info, Shift(info, pts[i]))
    ensures !AllInCanvas(info, pts)
  {
    AllInCanvasEach(info, pts);
  }

  /** The points of segment `k`, stated without the loop: the points from
      index `k·L` up to the next multiple of `L`, preceded by the point just
      before them unless `k` is 0. */
  function Chunk(info: DocInfo, pts: seq<Scene.Point>, l: nat, k: nat): seq<Vertex>
    requires l > 0 && k * l < |pts|
  {
    var start := k * l;
    var end := if start + l < |pts| then start + l else |pts|;
    (if k == 0 then [] else [Shift(info, pts[start - 1])]) + ShiftAll(info, pts[start..end])
  }

  lemma MulMono(a: int, b: int, l: int)
    requires a <= b && l >= 0
    ensures a * l <= b * l
  {
    assert b * l - a * l == (b - a) * l;
  }

  /** A chunk that ends before the last point is the same in the prefix. */
  lemma ChunkSame(info: DocInfo, pts: seq<Scene.Point>, l: nat, k: nat)
    requires l > 0 && |pts| > 0 && k * l + l <= |pts| - 1
    ensures Chunk(info, pts, l, k) == Chunk(info, pts[..|pts| - 1], l, k)
  {
    var init := pts[..|pts| - 1];
    var start := k * l;
    assert pts[start..start + l] == init[start..start + l];
  }

  /** The chunk that the last point falls in is the prefix's one plus it. */
  lemma ChunkGrow(info: DocInfo, pts: seq<Scene.Point>, l: nat, k: nat)
    requires l > 0 && |pts| > 0 && k * l < |pts| - 1 < k * l + l
    ensures Chunk(info, pts, l, k) == Chunk(info, pts[..|pts| - 1], l, k) + [Shift(info, pts[|pts| - 1])]
  {
    var i := |pts| - 1;
    var init := pts[..i];
    var start := k * l;
    assert init[start..i] == pts[start..i];
    assert pts[start..|pts|] == pts[start..i] + [pts[i]];
    assert ShiftAll(info, pts[start..|pts|]) == ShiftAll(info, pts[start..i]) + [Shift(info, pts[i])];
    if k > 0 {
      assert init[start - 1] == pts[start - 1];
    }
  }

  /** Segment `k` of `segs` holds exactly `Chunk(k)`, and its width and
      opacity come from the point at index `k·L` and the previous segment's
      width. */
  ghost predicate IsChunk(pen: WT.Pen, info: DocInfo, pts: seq<Scene.Point>, segs: seq<Segment>, k: nat,
                          pow: (real, real) -> real)
    requires pen.segmentLength > 0
  {
    var l := pen.segmentLength;
    k < |segs| && k * l < |pts| &&
    segs[k].points == Chunk(info, pts, l, k) &&
    var lastWidth := if k == 0 then 0.0 else segs[k - 1].width;
    segs[k].width == WT.SegmentWidth(pen, pts[k * l], lastWidth, pow) &&
    segs[k].opacity == WT.SegmentOpacity(pen, pts[k * l], lastWidth)
  }

  lemma ChunkBefore(k: int, c: int, l: int)
    requires 0 <= k < c && l > 0
    ensures k * l + l <= c * l
  {
    MulMono(k + 1, c, l);
  }

  /** A segment that ends before the new point is left as it was. */
  lemma KeepChunk(pen: WT.Pen, info: DocInfo, pts: seq<Scene.Point>, before: seq<Segment>, segs: seq<Segment>,
                  k: nat, pow: (real, real) -> real)
    requires pen.segmentLength > 0 && |pts| > 0
    requires k * pen.segmentLength + pen.segmentLength <= |pts| - 1
    requires IsChunk(pen, info, pts[..|pts| - 1], before, k, pow)
    requires k < |segs| && segs[k] == before[k] && (k > 0 ==> segs[k - 1] == before[k - 1])
    ensures IsChunk(pen, info, pts, segs, k, pow)
  {
    ChunkSame(info, pts, pen.segmentLength, k);
    assert pts[..|pts| - 1][k * pen.segmentLength] == pts[k * pen.segmentLength];
  }

  /** The segment the new point extends gains that point and nothing else. */
  lemma GrowLastChunk(pen: WT.Pen, info: DocInfo, pts: seq<Scene.Point>, before: seq<Segment>, segs: seq<Segment>,
                      k: nat, pow: (real, real) -> real)
    requires pen.segmentLength > 0 && |pts| > 0
    requires k * pen.segmentLength < |pts| - 1 < k * pen.segmentLength + pen.segmentLength
    requires IsChunk(pen, info, pts[..|pts| - 1], before, k, pow)
    requires k < |segs| && segs[k] == before[k].(points := before[k].points + [Shift(info, pts[|pts| - 1])])
    requires k > 0 ==> segs[k - 1] == before[k - 1]
    ensures IsChunk(pen, info, pts, segs, k, pow)
  {
    ChunkGrow(info, pts, pen.segmentLength, k);
    assert pts[..|pts| - 1][k * pen.segmentLength] == pts[k * pen.segmentLength];
  }

  /** The new point opens segment `k` exactly when it sits at index `k·L`. */
  lemma OpenChunk(pen: WT.Pen, info: DocInfo, pts: seq<Scene.Point>, segs: seq<Segment>, k: nat,
                  pow: (real, real) -> real)
    requires pen.segmentLength > 0 && |pts| > 0 && k * pen.segmentLength == |pts| - 1
    requires k < |segs|
    requires var i := |pts| - 1;
      var lastWidth := if k == 0 then 0.0 else segs[k - 1].width;
      segs[k] == Segment(WT.SegmentWidth(pen, pts[i], lastWidth, pow), WT.SegmentOpacity(pen, pts[i], lastWidth),
                         (if k == 0 then [] else [Shift(info, pts[i - 1])]) + [Shift(info, pts[i])])
    ensures IsChunk(pen, info, pts, segs, k, pow)
  {
    var i := |pts| - 1;
    assert ShiftAll(info, pts[i..|pts|]) == [Shift(info, pts[i])];
  }

  /** Every segment holds exactly its chunk of the points. */
  lemma {:induction false} SegmentsChunks(pen: WT.Pen, info: DocInfo, pts: seq<Scene.Point>, pow: (real, real) -> real)
    requires pen.segmentLength > 0
    ensures forall k: nat :: k < |Segments(pen, info, pts, pow)| ==> IsChunk(pen, info, pts, Segments(pen, info, pts, pow), k, pow)
    decreases |pts|
  {
    var l := pen.segmentLength;
    if pts != [] {
      var i := |pts| - 1;
      SegmentsChunks(pen, info, pts[..i], pow);
      var before := Segments(pen, info, pts[..i], pow);
      var segs := Segments(pen, info, pts, pow);
      assert |before| == (i + l - 1) / l by {
        SegmentsCount(pen, info, pts[..i], pow);
      }
      CountStep(i, l);
      assert segs == AddPoint(pen, info, before, if i == 0 then None else Some(Shift(info, pts[i - 1])), i, pts[i], pow) by {
        SegmentsSnoc(pen, info, pts, i, pow);
        assert pts[..i + 1] == pts;
      }
      if i % l == 0 {
        ChunksOpen(pen, info, pts, pts[..i], before, segs, pow);
      } else {
        ChunksGrow(pen, info, pts, pts[..i], before, segs, pow);
      }
    }
  }

  /** The step of `SegmentsChunks` where the new point opens a segment. */
  lemma ChunksOpen(pen: WT.Pen, info: DocInfo, pts: seq<Scene.Point>, init: seq<Scene.Point>, before: seq<Segment>,
                   segs: seq<Segment>, pow: (real, real) -> real)
    requires pen.segmentLength > 0 && pts != [] && (|pts| - 1) % pen.segmentLength == 0 && init == pts[..|pts| - 1]
    requires |before| * pen.segmentLength == |pts| - 1
    requires forall k: nat :: k < |before| ==> IsChunk(pen, info, init, before, k, pow)
    requires var i := |pts| - 1;
      segs == AddPoint(pen, info, before, if i == 0 then None else Some(Shift(info, pts[i - 1])), i, pts[i], pow)
    ensures forall k: nat :: k < |segs| ==> IsChunk(pen, info, pts, segs, k, pow)
  {
    var l := pen.segmentLength;
    var c := |before|;
    assert |segs| == c + 1 && segs[..c] == before;
    forall k: nat | k < c
      ensures IsChunk(pen, info, pts, segs, k, pow)
    {
      ChunkBefore(k, c, l);
      KeepChunk(pen, info, pts, before, segs, k, pow);
    }
    if c > 0 {
      MulAtLeast(c, l);
    }
    OpenChunk(pen, info, pts, segs, c, pow);
  }

  /** The step of `SegmentsChunks` where the new point joins the last
      segment. */
  lemma ChunksGrow(pen: WT.Pen, info: DocInfo, pts: seq<Scene.Point>, init: seq<Scene.Point>, before: seq<Segment>,
                   segs: seq<Segment>, pow: (real, real) -> real)
    requires pen.segmentLength > 0 && pts != [] && (|pts| - 1) % pen.segmentLength != 0 && init == pts[..|pts| - 1]
    requires |before| > 0 && (|before| - 1) * pen.segmentLength < |pts| - 1 < |before| * pen.segmentLength
    requires forall k: nat :: k < |before| ==> IsChunk(pen, info, init, before, k, pow)
    requires segs == AddPoint(pen, info, before, Some(Shift(info, pts[|pts| - 2])), |pts| - 1, pts[|pts| - 1], pow)
    ensures forall k: nat :: k < |segs| ==> IsChunk(pen, info, pts, segs, k, pow)
  {
    var l := pen.segmentLength;
    var c := |before|;
    assert |segs| == c && segs[..c - 1] == before[..c - 1];
    forall k: nat | k < c - 1
      ensures IsChunk(pen, info, pts, segs, k, pow)
    {
      ChunkBefore(k, c - 1, l);
      KeepChunk(pen, info, pts, before, segs, k, pow);
    }
    assert (c - 1) * l + l == c * l;
    GrowLastChunk(pen, info, pts, before, segs, c - 1, pow);
  }

  /** Every segment after the first starts with the point the previous
      segment ends with, so consecutive polylines join up. */
  lemma SegmentsJoin(pen: WT.Pen, info: DocInfo, pts: seq<Scene.Point>, pow: (real, real) -> real, k: nat)
    requires pen.segmentLength > 0 && 0 < k < |Segments(pen, info, pts, pow)|
    ensures var segs := Segments(pen, info, pts, pow);
      |segs[k - 1].points| > 0 && |segs[k].points| > 0 &&
      segs[k].points[0] == segs[k - 1].points[|segs[k - 1].points| - 1]
  {
    var l := pen.segmentLength;
    var segs := Segments(pen, info, pts, pow);
    assert IsChunk(pen, info, pts, segs, k, pow) && IsChunk(pen, info, pts, segs, k - 1, pow) by {
      SegmentsChunks(pen, info, pts, pow);
    }
    ChunksMeet(info, pts, l, k);
  }

  /** Chunk `k` starts with the last point of chunk `k - 1`. */
  lemma ChunksMeet(info: DocInfo, pts: seq<Scene.Point>, l: nat, k: nat)
    requires l > 0 && 0 < k && k * l < |pts|
    ensures var prev, next := Chunk(info, pts, l, k - 1), Chunk(info, pts, l, k);
      |prev| > 0 && |next| > 0 && next[0] == prev[|prev| - 1]
  {
    var start := k * l;
    assert (k - 1) * l + l == start;
    MulMono(k - 1, k, l);
    var prev := Chunk(info, pts, l, k - 1);
    var tail := ShiftAll(info, pts[start - l..start]);
    assert prev == (if k - 1 == 0 then [] else [Shift(info, pts[start - l - 1])]) + tail;
    assert tail[l - 1] == Shift(info, pts[start - 1]);
  }

  // ---------------------------------------------------------------------
  // draw_text

  /** One `<tspan>`: its `x`, its `dy` in em, its class and its text. */
  datatype Span = Span(x: real, dy: real, cls: string, text: string)

  /** The `<text>` element, written only when it has content. */
  datatype TextElement = TextElement(x: real, y: real, spans: seq<Span>)

  /** `styles.get(id, None)` */
  function Lookup(styles: map<int, Scene.ParagraphStyle>, id: int): (s: Option<Scene.ParagraphStyle>)
    ensures s.Some? <==> id in styles
  {
    if id in styles then Some(styles[id]) else None
  }

  /** `ParagraphStyle(style).name.lower()` */
  function StyleName(style: Scene.ParagraphStyle): string {
    match style
    case Basic => "basic"
    case Plain => "plain"
    case Heading => "heading"
    case Bold => "bold"
    case Bullet => "bullet"
    case Bullet2 => "bullet2"
    case Checkbox => "checkbox"
    case CheckboxChecked => "checkbox_checked"
  }

  /** The class of an item's spans: its own style, or "plain" without one. */
  function StyleClass(self: Option<Scene.ParagraphStyle>): (cls: string)
    ensures self.None? ==> cls == "plain"
    ensures self.Some? ==> cls == StyleName(self.value)
  {
    if self.Some? then StyleName(self.value) else "plain"
  }

  /** The symbol drawn before an item whose left neighbour has a list style. */
  function ListSymbol(left: Option<Scene.ParagraphStyle>): (sym: Option<string>)
    ensures sym.Some? <==> left.Some? && left.value in {Scene.Bullet, Scene.Bullet2, Scene.Checkbox, Scene.CheckboxChecked}
    ensures sym.Some? ==> |sym.value| == 1
  {
    if left.None? then None
    else match left.value
      case Bullet => Some("\U{2022}")
      case Bullet2 => Some("\U{2022}")
      case Checkbox => Some("\U{2610}")
      case CheckboxChecked => Some("\U{2611}")
      case _ => None
  }

  /** The variables of the inner loop. */
  datatype PartsState = PartsState(spans: seq<Span>, newlines: int, started: bool)

  /** One line of an item's text: every line after the first counts a
      newline; an empty line adds nothing else; a non-empty one adds a span
      and, unless it is the first span of the item, one more newline. */
  function PartStep(st: PartsState, part: string, x: real, margin: int, cls: string): PartsState {
    var nl := if st.started then st.newlines + 1 else st.newlines;
    if part == [] then st.(newlines := nl)
    else
      var dy := if margin != 0 then 0.0 else nl as real / 2.0;
      var span := Span(x + margin as real, dy, cls, part);
      PartsState(st.spans + [span], if st.started then nl + 1 else nl, true)
  }

  function PartsFold(parts: seq<string>, x: real, margin: int, cls: string, init: PartsState): PartsState {
    if parts == [] then init
    else PartStep(PartsFold(parts[..|parts| - 1], x, margin, cls, init), parts[|parts| - 1], x, margin, cls)
  }

  /** The variables of the outer loop. */
  datatype TextState = TextState(spans: seq<Span>, newlines: int)

  /** One text item: the list symbol if any, then its lines, shifted right
      by 50 after a symbol. */
  function ItemStep(st: TextState, item: Scene.TextItem, styles: map<int, Scene.ParagraphStyle>, xpos: real): TextState {
    var cls := StyleClass(Lookup(styles, item.itemId));
    var sym := ListSymbol(Lookup(styles, item.leftId));
    var spans := if sym.Some? then st.spans + [Span(xpos, st.newlines as real / 2.0, cls, sym.value)] else st.spans;
    var margin := if sym.Some? then 50 else 0;
    var ps := PartsFold(Split(item.value, "\n"), xpos, margin, cls, PartsState(spans, st.newlines, false));
    TextState(ps.spans, ps.newlines)
  }

  function ItemsFold(items: seq<Scene.TextItem>, styles: map<int, Scene.ParagraphStyle>, xpos: real): TextState {
    if items == [] then TextState([], 0)
    else ItemStep(ItemsFold(items[..|items| - 1], styles, xpos), items[|items| - 1], styles, xpos)
  }

  /** `draw_text(block, svg_doc_info)`, without its fixed comments and style
      sheet: the `<text>` element, absent when no span was written. */
  function DrawTextSpec(rt: Scene.RootText, info: DocInfo): Option<TextElement> {
    var xpos := rt.posX + info.xposDelta;
    var ypos := rt.posY + info.yposDelta;
    var st := ItemsFold(rt.items, rt.styles, xpos);
    if st.spans == [] then None else Some(TextElement(xpos, ypos, st.spans))
  }

  /** `draw_text(block, svg_doc_info)`: the loop over the text items. */
  method DrawText(rt: Scene.RootText, info: DocInfo) returns (r: Option<TextElement>)
    ensures r == DrawTextSpec(rt, info)
  {
    var spans: seq<Span> := [];
    var xpos := rt.posX + info.xposDelta;
    var ypos := rt.posY + info.yposDelta;
    var newlines := 0;
    for i := 0 to |rt.items|
      invariant TextState(spans, newlines) == ItemsFold(rt.items[..i], rt.styles, xpos)
    {
      ghost var before := TextState(spans, newlines);
      var item := rt.items[i];
      var selfStyle := Lookup(rt.styles, item.itemId);
      var leftStyle := Lookup(rt.styles, item.leftId);
      var styleClass := "plain";
      if selfStyle.Some? {
        styleClass := StyleName(selfStyle.value);
      }
      var margin := 0;
      var symbol := ListSymbol(leftStyle);
      if symbol.Some? {
        spans := spans + [Span(xpos, newlines as real / 2.0, styleClass, symbol.value)];
        margin := 50;
      }
      assert styleClass == StyleClass(selfStyle) && margin == (if symbol.Some? then 50 else 0);
      spans, newlines := DrawLines(Split(item.value, "\n"), xpos, margin, styleClass, spans, newlines);
      assert TextState(spans, newlines) == ItemStep(before, item, rt.styles, xpos);
      ItemsFoldSnoc(rt.items, i, rt.styles, xpos);
    }
    assert rt.items[..|rt.items|] == rt.items;
    if spans == [] {
      return None;
    }
    return Some(TextElement(xpos, ypos, spans));
  }

  lemma ItemsFoldSnoc(items: seq<Scene.TextItem>, i: nat, styles: map<int, Scene.ParagraphStyle>, xpos: real)
    requires i < |items|
    ensures ItemsFold(items[..i + 1], styles, xpos) == ItemStep(ItemsFold(items[..i], styles, xpos), items[i], styles, xpos)
  {
    assert items[..i + 1][..i] == items[..i];
  }

  /** The inner loop of `draw_text`, over the lines of one item. */
  method DrawLines(parts: seq<string>, xpos: real, margin: int, styleClass: string, spans0: seq<Span>, newlines0: int)
    returns (spans: seq<Span>, newlines: int)
    ensures TextState(spans, newlines) ==
      var ps := PartsFold(parts, xpos, margin, styleClass, PartsState(spans0, newlines0, false));
      TextState(ps.spans, ps.newlines)
  {
    spans, newlines := spans0, newlines0;
    var started := false;
    for j := 0 to |parts|
      invariant PartsState(spans, newlines, started) == PartsFold(parts[..j], xpos, margin, styleClass, PartsState(spans0, newlines0, false))
    {
      assert parts[..j + 1][..j] == parts[..j];
      var part := parts[j];
      if started {
        newlines := newlines + 1;
      }
      if part == [] {
        continue;
      }
      var dy := if margin != 0 then 0.0 else newlines as real / 2.0;
      if !started {
        started := true;
        spans := spans + [Span(xpos + margin as real, dy, styleClass, part)];
      } else {
        newlines := newlines + 1;
        spans := spans + [Span(xpos + margin as real, dy, styleClass, part)];
      }
    }
    assert parts[..|parts|] == parts;
  }

  /** The text of the spans, in order. */
  function Texts(spans: seq<Span>): string {
    if spans == [] then [] else Texts(spans[..|spans| - 1]) + spans[|spans| - 1].text
  }

  lemma TextsSnoc(spans: seq<Span>, s: Span)
    ensures Texts(spans + [s]) == Texts(spans) + s.text
  {
    assert (spans + [s])[..|spans|] == spans;
  }

  /** Spans with text have text in all exactly when there is a span. */
  lemma {:induction false} TextsEmpty(spans: seq<Span>)
    requires forall j :: 0 <= j < |spans| ==> spans[j].text != []
    ensures Texts(spans) == [] <==> spans == []
    decreases |spans|
  {
    if spans != [] {
      var init := spans[..|spans| - 1];
      assert forall j :: 0 <= j < |init| ==> init[j] == spans[j];
      TextsEmpty(init);
    }
  }

  /** The spans from index `from` on have text, class `cls`, abscissa `x`
      and, when `flat` holds, `dy` 0. */
  ghost predicate AddedSpans(spans: seq<Span>, from: int, x: real, cls: string, flat: bool) {
    forall j :: 0 <= from <= j < |spans| ==>
      spans[j].cls == cls && spans[j].x == x && spans[j].text != [] && (flat ==> spans[j].dy == 0.0)
  }

  /** One line adds at most one span, holding the line. */
  lemma PartStepSpans(st: PartsState, part: string, x: real, margin: int, cls: string, from: int)
    requires 0 <= from <= |st.spans| && AddedSpans(st.spans, from, x + margin as real, cls, margin != 0)
    ensures var r := PartStep(st, part, x, margin, cls);
      |st.spans| <= |r.spans| && r.spans[..|st.spans|] == st.spans &&
      Texts(r.spans) == Texts(st.spans) + part &&
      AddedSpans(r.spans, from, x + margin as real, cls, margin != 0)
  {
    var r := PartStep(st, part, x, margin, cls);
    if part == [] {
      assert st.spans[..|st.spans|] == st.spans;
    } else {
      var span := r.spans[|st.spans|];
      assert r.spans == st.spans + [span];
      TextsSnoc(st.spans, span);
    }
  }

  /** The lines of one item add one span per non-empty line, in order, with
      the item's class and offset; their texts together are the lines
      joined without the line breaks. After a list symbol every span has
      `dy` 0. */
  lemma {:induction false} PartsFoldSpans(parts: seq<string>, x: real, margin: int, cls: string, init: PartsState)
    ensures var r := PartsFold(parts, x, margin, cls, init);
      |init.spans| <= |r.spans| && r.spans[..|init.spans|] == init.spans &&
      Texts(r.spans) == Texts(init.spans) + Concat(parts) &&
      AddedSpans(r.spans, |init.spans|, x + margin as real, cls, margin != 0)
    decreases |parts|
  {
    if parts == [] {
      assert init.spans[..|init.spans|] == init.spans;
      assert Concat(parts) == [];
    } else {
      var front := parts[..|parts| - 1];
      PartsFoldSpans(front, x, margin, cls, init);
      PartsSnocSpans(parts, x, margin, cls, init, PartsFold(front, x, margin, cls, init));
    }
  }

  /** The step of `PartsFoldSpans`: the last line, after the others. */
  lemma PartsSnocSpans(parts: seq<string>, x: real, margin: int, cls: string, init: PartsState, st: PartsState)
    requires parts != []
    requires |init.spans| <= |st.spans| && st.spans[..|init.spans|] == init.spans &&
      Texts(st.spans) == Texts(init.spans) + Concat(parts[..|parts| - 1]) &&
      AddedSpans(st.spans, |init.spans|, x + margin as real, cls, margin != 0)
    ensures var r := PartStep(st, parts[|parts| - 1], x, margin, cls);
      |init.spans| <= |r.spans| && r.spans[..|init.spans|] == init.spans &&
      Texts(r.spans) == Texts(init.spans) + Concat(parts) &&
      AddedSpans(r.spans, |init.spans|, x + margin as real, cls, margin != 0)
  {
    var front, last := parts[..|parts| - 1], parts[|parts| - 1];
    var r := PartStep(st, last, x, margin, cls);
    PartStepSpans(st, last, x, margin, cls, |init.spans|);
    PrefixOfPrefix(r.spans, st.spans, init.spans);
    assert Concat(parts) == Concat(front) + last by {
      ConcatSnoc(front, last);
      assert front + [last] == parts;
    }
  }

  /** A prefix of a prefix is a prefix. */
  lemma PrefixOfPrefix(a: seq<Span>, b: seq<Span>, c: seq<Span>)
    requires |c| <= |b| <= |a| && a[..|b|] == b && b[..|c|] == c
    ensures a[..|c|] == c
  {
    assert a[..|c|] == a[..|b|][..|c|];
  }

  /** The text one item contributes: its list symbol, then its lines
      without the line breaks. */
  function ItemText(item: Scene.TextItem, styles: map<int, Scene.ParagraphStyle>): string {
    var sym := ListSymbol(Lookup(styles, item.leftId));
    (if sym.Some? then sym.value else []) + RemoveAll(item.value, "\n")
  }

  function AllText(items: seq<Scene.TextItem>, styles: map<int, Scene.ParagraphStyle>): string {
    if items == [] then [] else AllText(items[..|items| - 1], styles) + ItemText(items[|items| - 1], styles)
  }

  /** One item adds its symbol span first (at the block's `x`, with the
      item's class), then spans whose texts are the item's text without line
      breaks, shifted right by 50 and with `dy` 0 after a symbol. */
  lemma ItemStepSpans(st: TextState, item: Scene.TextItem, styles: map<int, Scene.ParagraphStyle>, xpos: real)
    ensures var r := ItemStep(st, item, styles, xpos);
      var cls := StyleClass(Lookup(styles, item.itemId));
      var sym := ListSymbol(Lookup(styles, item.leftId));
      var first := |st.spans| + (if sym.Some? then 1 else 0);
      first <= |r.spans| && r.spans[..|st.spans|] == st.spans &&
      Texts(r.spans) == Texts(st.spans) + ItemText(item, styles) &&
      (sym.Some? ==> r.spans[|st.spans|] == Span(xpos, st.newlines as real / 2.0, cls, sym.value)) &&
      AddedSpans(r.spans, first, xpos + (if sym.Some? then 50.0 else 0.0), cls, sym.Some?)
  {
    var cls := StyleClass(Lookup(styles, item.itemId));
    var sym := ListSymbol(Lookup(styles, item.leftId));
    var spans := if sym.Some? then st.spans + [Span(xpos, st.newlines as real / 2.0, cls, sym.value)] else st.spans;
    var margin := if sym.Some? then 50 else 0;
    var parts := Split(item.value, "\n");
    var ps := PartsFold(parts, xpos, margin, cls, PartsState(spans, st.newlines, false));
    assert |spans| <= |ps.spans| && ps.spans[..|spans|] == spans &&
      Texts(ps.spans) == Texts(spans) + Concat(parts) &&
      AddedSpans(ps.spans, |spans|, xpos + margin as real, cls, margin != 0) by {
      PartsFoldSpans(parts, xpos, margin, cls, PartsState(spans, st.newlines, false));
    }
    assert Concat(parts) == RemoveAll(item.value, "\n") by {
      SplitConcat(item.value, "\n");
    }
    assert Texts(spans) == Texts(st.spans) + (if sym.Some? then sym.value else []) by {
      if sym.Some? {
        TextsSnoc(st.spans, Span(xpos, st.newlines as real / 2.0, cls, sym.value));
      }
    }
    assert ps.spans[..|st.spans|] == spans[..|st.spans|];
    var r := ItemStep(st, item, styles, xpos);
    assert r.spans == ps.spans;
    var first := |st.spans| + (if sym.Some? then 1 else 0);
    assert first == |spans|;
    assert xpos + margin as real == xpos + (if sym.Some? then 50.0 else 0.0);
    assert (margin != 0) == sym.Some?;
    assert AddedSpans(r.spans, first, xpos + (if sym.Some? then 50.0 else 0.0), cls, sym.Some?);
    assert ItemText(item, styles) == (if sym.Some? then sym.value else []) + RemoveAll(item.value, "\n");
    var a, b, c := Texts(st.spans), if sym.Some? then sym.value else [], RemoveAll(item.value, "\n");
    assert (a + b) + c == a + (b + c);
  }

  /** The spans of a text block spell out every item's symbol and text, in
      order, without line breaks, and every span has text. */
  lemma {:induction false} ItemsFoldText(items: seq<Scene.TextItem>, styles: map<int, Scene.ParagraphStyle>, xpos: real)
    ensures var st := ItemsFold(items, styles, xpos);
      Texts(st.spans) == AllText(items, styles) &&
      forall j :: 0 <= j < |st.spans| ==> st.spans[j].text != []
    decreases |items|
  {
    if items != [] {
      var init, item := items[..|items| - 1], items[|items| - 1];
      ItemsFoldText(init, styles, xpos);
      ItemStepText(ItemsFold(init, styles, xpos), item, styles, xpos);
    }
  }

  /** One item appends its text, and only spans of non-empty text. */
  lemma ItemStepText(st: TextState, item: Scene.TextItem, styles: map<int, Scene.ParagraphStyle>, xpos: real)
    requires forall j :: 0 <= j < |st.spans| ==> st.spans[j].text != []
    ensures var r := ItemStep(st, item, styles, xpos);
      Texts(r.spans) == Texts(st.spans) + ItemText(item, styles) &&
      forall j :: 0 <= j < |r.spans| ==> r.spans[j].text != []
  {
    var r := ItemStep(st, item, styles, xpos);
    var sym := ListSymbol(Lookup(styles, item.leftId));
    var first := |st.spans| + (if sym.Some? then 1 else 0);
    assert first <= |r.spans| && r.spans[..|st.spans|] == st.spans &&
      Texts(r.spans) == Texts(st.spans) + ItemText(item, styles) &&
      (sym.Some? ==> r.spans[|st.spans|].text == sym.value) &&
      forall j :: first <= j < |r.spans| ==> r.spans[j].text != [] by {
      ItemStepSpans(st, item, styles, xpos);
    }
    assert forall j :: |st.spans| <= j < |r.spans| ==> r.spans[j].text != [];
    NonEmptyTexts(st.spans, r.spans);
  }

  /** Spans of a non-empty text, extended by spans of non-empty texts. */
  lemma NonEmptyTexts(a: seq<Span>, r: seq<Span>)
    requires |a| <= |r| && r[..|a|] == a
    requires forall j :: 0 <= j < |a| ==> a[j].text != []
    requires forall j :: |a| <= j < |r| ==> r[j].text != []
    ensures forall j :: 0 <= j < |r| ==> r[j].text != []
  {
    forall j | 0 <= j < |a| ensures r[j].text != [] {
      assert r[j] == r[..|a|][j];
    }
  }

  /** `draw_text` writes a `<text>` element exactly when the block has some
      text or list symbol, and its spans spell that text out. */
  lemma DrawTextContent(rt: Scene.RootText, info: DocInfo)
    ensures DrawTextSpec(rt, info).None? <==> AllText(rt.items, rt.styles) == []
    ensures DrawTextSpec(rt, info).Some? ==> Texts(DrawTextSpec(rt, info).value.spans) == AllText(rt.items, rt.styles)
  {
    var st := ItemsFold(rt.items, rt.styles, rt.posX + info.xposDelta);
    ItemsFoldText(rt.items, rt.styles, rt.posX + info.xposDelta);
    TextsEmpty(st.spans);
  }

  // ---------------------------------------------------------------------
  // blocks_to_svg

  /** What one block contributes to the page group. */
  datatype Drawn = DrawnStroke(stroke: Stroke) | DrawnText(text: Option<TextElement>)

  datatype Rect = Rect(x: int, y: int, width: int, height: int)

  /** The document `blocks_to_svg` writes, without its fixed markup: the
      size, the background image's placement (present when a base image is
      given), the drawn blocks in order, and the transparent rectangle over
      the whole page. */
  datatype SvgDoc = SvgDoc(info: DocInfo, image: Option<Rect>, drawn: seq<Drawn>, overlay: Rect)

  /** `[block for block, _ in blocks]` */
  function Firsts(blocks: seq<(Scene.Block, WT.ColorRef)>): (bs: seq<Scene.Block>)
    ensures |bs| == |blocks|
    ensures forall i :: 0 <= i < |blocks| ==> bs[i] == blocks[i].0
  {
    if blocks == [] then [] else Firsts(blocks[..|blocks| - 1]) + [blocks[|blocks| - 1].0]
  }

  /** One pass of the drawing loop. An exception ends the loop. A stroke
      block whose item is empty makes `draw_stroke` return nothing: when
      `skipEmpty` is false that nothing is appended to the output text,
      which Python refuses with a `TypeError`; when it is true the block is
      skipped, as intended. Blocks other than strokes and text are skipped. */
  function DrawStep(done: Result<seq<Drawn>, Error>, bc: (Scene.Block, WT.ColorRef), info: DocInfo,
                    pow: (real, real) -> real, skipEmpty: bool): Result<seq<Drawn>, Error>
  {
    if done.Failure? then done
    else match bc.0
      case LineBlock(_, _, _) =>
        var s := DrawStrokeSpec(bc.0, info, bc.1, pow);
        if s.Failure? then Failure(s.error)
        else if s.value.None? then (if skipEmpty then done else Failure(TypeError))
        else Success(done.value + [DrawnStroke(s.value.value)])
      case RootTextBlock(rt) => Success(done.value + [DrawnText(DrawTextSpec(rt, info))])
      case _ => done
  }

  function DrawBlocks(blocks: seq<(Scene.Block, WT.ColorRef)>, info: DocInfo, pow: (real, real) -> real,
                      skipEmpty: bool): Result<seq<Drawn>, Error>
  {
    if blocks == [] then Success([])
    else DrawStep(DrawBlocks(blocks[..|blocks| - 1], info, pow, skipEmpty), blocks[|blocks| - 1], info, pow, skipEmpty)
  }

  function Assemble(info: DocInfo, baseImage: bool, margin: int, drawn: seq<Drawn>): SvgDoc {
    var image := if baseImage then Some(Rect(margin, margin, info.width - margin * 2, info.height - margin * 2)) else None;
    SvgDoc(info, image, drawn, Rect(0, 0, info.width, info.height))
  }

  /** `blocks_to_svg` as written: an empty stroke item raises. */
  function BlocksToSvgAsWritten(blocks: seq<(Scene.Block, WT.ColorRef)>, xposShift: real, yposShift: real,
                                screenWidth: int, screenHeight: int, baseImage: bool, margin: int,
                                pow: (real, real) -> real): Result<SvgDoc, Error>
  {
    var info := GetDimensions(Firsts(blocks), xposShift, yposShift, screenWidth, screenHeight);
    var drawn :- DrawBlocks(blocks, info, pow, false);
    Success(Assemble(info, baseImage, margin, drawn))
  }

  /** `blocks_to_svg` with empty stroke items skipped. */
  function BlocksToSvgSpec(blocks: seq<(Scene.Block, WT.ColorRef)>, xposShift: real, yposShift: real,
                           screenWidth: int, screenHeight: int, baseImage: bool, margin: int,
                           pow: (real, real) -> real): Result<SvgDoc, Error>
  {
    var info := GetDimensions(Firsts(blocks), xposShift, yposShift, screenWidth, screenHeight);
    var drawn :- DrawBlocks(blocks, info, pow, true);
    Success(Assemble(info, baseImage, margin, drawn))
  }

  /** Once the drawing loop has failed, later blocks keep the failure. */
  lemma {:induction false} DrawBlocksFailureStays(blocks: seq<(Scene.Block, WT.ColorRef)>, i: nat, info: DocInfo,
                                                  pow: (real, real) -> real, skipEmpty: bool)
    requires i <= |blocks| && DrawBlocks(blocks[..i], info, pow, skipEmpty).Failure?
    ensures DrawBlocks(blocks, info, pow, skipEmpty) == DrawBlocks(blocks[..i], info, pow, skipEmpty)
    decreases |blocks| - i
  {
    if i == |blocks| {
      assert blocks[..i] == blocks;
    } else {
      assert blocks[..i + 1][..i] == blocks[..i];
      DrawBlocksFailureStays(blocks, i + 1, info, pow, skipEmpty);
    }
  }

  /** `blocks_to_svg(blocks, ...)`, with empty stroke items skipped. */
  method BlocksToSvg(blocks: seq<(Scene.Block, WT.ColorRef)>, xposShift: real, yposShift: real,
                     screenWidth: int, screenHeight: int, baseImage: bool, margin: int,
                     pow: (real, real) -> real) returns (r: Result<SvgDoc, Error>)
    ensures r == BlocksToSvgSpec(blocks, xposShift, yposShift, screenWidth, screenHeight, baseImage, margin, pow)
  {
    var info := GetDimensions(Firsts(blocks), xposShift, yposShift, screenWidth, screenHeight);
    var drawn: seq<Drawn> := [];
    for i := 0 to |blocks|
      invariant DrawBlocks(blocks[..i], info, pow, true) == Success(drawn)
    {
      assert blocks[..i + 1][..i] == blocks[..i];
      var (block, color) := blocks[i];
      if block.LineBlock? {
        var s := DrawStroke(block, info, color, pow);
        if s.Failure? {
          DrawBlocksFailureStays(blocks, i + 1, info, pow, true);
          return Failure(s.error);
        }
        if s.value.Some? {
          drawn := drawn + [DrawnStroke(s.value.value)];
        }
      } else if block.RootTextBlock? {
        var t := DrawText(block.root, info);
        drawn := drawn + [DrawnText(t)];
      }
    }
    assert blocks[..|blocks|] == blocks;
    return Success(Assemble(info, baseImage, margin, drawn));
  }

  /** The block is a stroke whose drawing raises. */
  predicate StrokeFails(bc: (Scene.Block, WT.ColorRef), info: DocInfo, pow: (real, real) -> real) {
    bc.0.LineBlock? && DrawStrokeSpec(bc.0, info, bc.1, pow).Failure?
  }

  /** The number of blocks that draw something: text blocks and stroke
      blocks with an item. */
  function CountShown(blocks: seq<(Scene.Block, WT.ColorRef)>): nat {
    if blocks == [] then 0
    else
      var b := blocks[|blocks| - 1].0;
      CountShown(blocks[..|blocks| - 1]) + (if b.RootTextBlock? || (b.LineBlock? && b.line.Some?) then 1 else 0)
  }

  lemma DrawStrokeEmpty(b: Scene.Block, info: DocInfo, color: WT.ColorRef, pow: (real, real) -> real)
    requires b.LineBlock?
    ensures DrawStrokeSpec(b, info, color, pow) == Success(None) <==> b.line.None?
  {
  }

  /** The drawing loop succeeds exactly when no stroke raises, and then
      draws one element per text block and non-empty stroke. */
  lemma {:induction false} DrawBlocksSuccess(blocks: seq<(Scene.Block, WT.ColorRef)>, info: DocInfo, pow: (real, real) -> real)
    ensures var r := DrawBlocks(blocks, info, pow, true);
      (r.Success? <==> forall i :: 0 <= i < |blocks| ==> !StrokeFails(blocks[i], info, pow)) &&
      (r.Success? ==> |r.value| == CountShown(blocks))
    decreases |blocks|
  {
    if blocks != [] {
      var init, last := blocks[..|blocks| - 1], blocks[|blocks| - 1];
      DrawBlocksSuccess(init, info, pow);
      assert forall i :: 0 <= i < |init| ==> init[i] == blocks[i];
      DrawStepSkipping(DrawBlocks(init, info, pow, true), last, info, pow);
    }
  }

  /** One step of the loop that skips empty strokes succeeds exactly when
      the loop so far did and the block is no stroke that raises, and then
      draws one more element exactly for a text block or non-empty stroke. */
  lemma DrawStepSkipping(done: Result<seq<Drawn>, Error>, bc: (Scene.Block, WT.ColorRef), info: DocInfo, pow: (real, real) -> real)
    ensures var r := DrawStep(done, bc, info, pow, true);
      (r.Success? <==> done.Success? && !StrokeFails(bc, info, pow)) &&
      (r.Success? ==> |r.value| == |done.value| + if bc.0.RootTextBlock? || (bc.0.LineBlock? && bc.0.line.Some?) then 1 else 0)
  {
    if bc.0.LineBlock? {
      DrawStrokeEmpty(bc.0, info, bc.1, pow);
    }
  }

  /** When the drawing loop fails, it is with the error of the first stroke
      that raises. */
  lemma {:induction false} DrawBlocksFirstError(blocks: seq<(Scene.Block, WT.ColorRef)>, info: DocInfo, pow: (real, real) -> real)
    requires DrawBlocks(blocks, info, pow, true).Failure?
    ensures exists i :: (0 <= i < |blocks| && StrokeFails(blocks[i], info, pow) &&
      DrawBlocks(blocks, info, pow, true).error == DrawStrokeSpec(blocks[i].0, info, blocks[i].1, pow).error &&
      forall j :: 0 <= j < i ==> !StrokeFails(blocks[j], info, pow))
    decreases |blocks|
  {
    var init, last := blocks[..|blocks| - 1], blocks[|blocks| - 1];
    assert forall i :: 0 <= i < |init| ==> init[i] == blocks[i];
    if DrawBlocks(init, info, pow, true).Failure? {
      DrawBlocksFirstError(init, info, pow);
      var i :| 0 <= i < |init| && StrokeFails(init[i], info, pow) &&
        DrawBlocks(init, info, pow, true).error == DrawStrokeSpec(init[i].0, info, init[i].1, pow).error &&
        forall j :: 0 <= j < i ==> !StrokeFails(init[j], info, pow);
      assert StrokeFails(blocks[i], info, pow);
    } else {
      DrawBlocksSuccess(init, info, pow);
      assert StrokeFails(blocks[|blocks| - 1], info, pow);
    }
  }

  /** Without empty stroke items, the code as written and the corrected
      loop draw the same. */
  lemma {:induction false} DrawBlocksAgree(blocks: seq<(Scene.Block, WT.ColorRef)>, info: DocInfo, pow: (real, real) -> real)
    requires forall i :: 0 <= i < |blocks| ==> blocks[i].0.LineBlock? ==> blocks[i].0.line.Some?
    ensures DrawBlocks(blocks, info, pow, false) == DrawBlocks(blocks, info, pow, true)
    decreases |blocks|
  {
    if blocks != [] {
      var init, last := blocks[..|blocks| - 1], blocks[|blocks| - 1];
      assert forall i :: 0 <= i < |init| ==> init[i] == blocks[i];
      DrawBlocksAgree(init, info, pow);
      if last.0.LineBlock? {
        DrawStrokeEmpty(last.0, info, last.1, pow);
      }
    }
  }

  /** The document: its page is at least a screen, the background image is
      inset by the margin on every side, the overlay covers the page, and
      the drawing succeeds exactly when no stroke raises. */
  lemma BlocksToSvgDoc(blocks: seq<(Scene.Block, WT.ColorRef)>, xposShift: real, yposShift: real,
                       screenWidth: int, screenHeight: int, baseImage: bool, margin: int, pow: (real, real) -> real)
    ensures var r := BlocksToSvgSpec(blocks, xposShift, yposShift, screenWidth, screenHeight, baseImage, margin, pow);
      var info := GetDimensions(Firsts(blocks), xposShift, yposShift, screenWidth, screenHeight);
      (r.Success? <==> forall i :: 0 <= i < |blocks| ==> !StrokeFails(blocks[i], info, pow)) &&
      (r.Success? ==>
        r.value.info == info && r.value.info.width >= screenWidth && r.value.info.height >= screenHeight &&
        |r.value.drawn| == CountShown(blocks) &&
        r.value.overlay == Rect(0, 0, r.value.info.width, r.value.info.height) &&
        (r.value.image.Some? <==> baseImage) &&
        (baseImage ==> var img := r.value.image.value;
          img.x == margin && img.y == margin &&
          img.x + img.width + margin == r.value.info.width && img.y + img.height + margin == r.value.info.height))
  {
    var info := GetDimensions(Firsts(blocks), xposShift, yposShift, screenWidth, screenHeight);
    DrawBlocksSuccess(blocks, info, pow);
  }

  /** An empty stroke item (one the eraser removed) makes the code as written
      fail: `draw_stroke` returns `None` and appending it to the output text
      raises `TypeError`. The corrected loop skips it and writes an empty
      page. */
  lemma EmptyStrokeRaises(pow: (real, real) -> real)
    ensures var blocks := [(Scene.LineBlock(0, None, []), WT.PaletteColor(Scene.Black))];
      BlocksToSvgAsWritten(blocks, XposShift, 0.0, ScreenWidth, ScreenHeight, false, 0, pow) == Failure(TypeError) &&
      BlocksToSvgSpec(blocks, XposShift, 0.0, ScreenWidth, ScreenHeight, false, 0, pow).Success? &&
      BlocksToSvgSpec(blocks, XposShift, 0.0, ScreenWidth, ScreenHeight, false, 0, pow).value.drawn == []
  {
    var blocks := [(Scene.LineBlock(0, None, []), WT.PaletteColor(Scene.Black))];
    assert blocks[..0] == [];
  }
}
