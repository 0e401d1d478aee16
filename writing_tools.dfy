/** The pen registry of `writing_tools.py` (and its identical copy under
    `utils/`): the palette, the pen families with the fields their
    constructors set step by step, the dispatch from tool id to family, and the
    per-segment width, opacity and colour formulas.

    Floats are modelled as reals. The non-integer powers (`** 2.1`, `** 1.8`,
    `** 1.5`) are taken as a parameter `pow`, of which nothing is assumed;
    pi is its double-precision value. */
module WritingTools {
  import opened Common
  import Scene

  datatype Rgb = Rgb(r: Byte, g: Byte, b: Byte)

  /** What `Pen` receives as `base_color_id`: a palette id or an RGBA tuple. */
  datatype ColorRef = PaletteColor(id: Scene.PenColor) | RgbaColor(rgb: Rgb, a: Byte)

  const White := Rgb(255, 255, 255)

  /** `remarkable_palette`: every colour id except the highlight colour. */
  function Palette(c: Scene.PenColor): (r: Option<Rgb>)
    ensures r.None? <==> c == Scene.Highlight
    ensures c == Scene.White ==> r == Some(White)
  {
    match c
    case Black => Some(Rgb(0, 0, 0))
    case Gray => Some(Rgb(144, 144, 144))
    case White => Some(Rgb(255, 255, 255))
    case Yellow => Some(Rgb(251, 247, 25))
    case Green => Some(Rgb(0, 255, 0))
    case Pink => Some(Rgb(255, 192, 203))
    case Blue => Some(Rgb(78, 105, 201))
    case Red => Some(Rgb(179, 62, 57))
    case GrayOverlap => Some(Rgb(125, 125, 125))
    case Highlight => None
    case Green2 => Some(Rgb(161, 216, 125))
    case Cyan => Some(Rgb(139, 208, 229))
    case Magenta => Some(Rgb(183, 130, 205))
    case Yellow2 => Some(Rgb(247, 232, 81))
  }

  /** The subclasses of `Pen`. */
  datatype Family =
    | Fineliner | Ballpoint | Marker | Pencil | MechanicalPencil | Brush
    | Highlighter | Shader | Eraser | EraseArea | Caligraphy

  datatype Linecap = Round | Square

  /** The fields a pen object holds once its constructor has run. */
  datatype Pen = Pen(
    family: Family,
    baseWidth: real,
    baseColor: Rgb,
    strokeOpacity: real,
    segmentLength: nat,
    baseOpacity: real,
    name: string,
    linecap: Linecap,
    strokeWidth: real,
    strokeColor: Rgb)

  const PI: real := 3.141592653589793

  /** `Pen.__post_init__`: resolve the colour, then set the defaults. The
      stroke width and colour are captured here, before any subclass rescales
      the base width. */
  function PostInit(family: Family, width: real, color: ColorRef): (r: Result<Pen, Error>)
    ensures r.Failure? <==> color.PaletteColor? && color.id == Scene.Highlight
    ensures r.Failure? ==> r.error == UnknownColor
  {
    var (base, opacity) :- match color
      case RgbaColor(rgb, a) => Success((rgb, a as real / 255.0))
      case PaletteColor(id) =>
        if Palette(id).None? then Failure(UnknownColor) else Success((Palette(id).value, 1.0));
    Success(Pen(family, width, base, opacity, 1000, 1.0, "Basic Pen", Round, width, base))
  }

  /** The `__post_init__` of each subclass, run after the base one. */
  function Refine(p: Pen, pow: (real, real) -> real): (r: Pen)
    ensures r.family == p.family && r.baseColor == p.baseColor && r.strokeOpacity == p.strokeOpacity
    ensures r.strokeWidth == p.strokeWidth && r.strokeColor == p.strokeColor
  {
    match p.family
    case Fineliner => p.(baseWidth := pow(p.baseWidth, 2.1) * 1.3, name := "Fineliner")
    case Ballpoint => p.(segmentLength := 5, name := "Ballpoint")
    case Marker => p.(segmentLength := 3, name := "Marker")
    case Pencil => p.(segmentLength := 2, name := "Pencil")
    case MechanicalPencil => p.(baseWidth := p.baseWidth * p.baseWidth, baseOpacity := 0.7, name := "Mechanical Pencil")
    case Brush => p.(segmentLength := 2, linecap := Round, name := "Brush")
    case Highlighter => p.(linecap := Square, baseOpacity := 0.3, name := "Highlighter")
    case Shader => p.(linecap := Round, baseOpacity := 0.1, name := "Shader")
    case Eraser => p.(linecap := Square, baseWidth := p.baseWidth * 2.0, name := "Eraser")
    case EraseArea => p.(linecap := Square, baseOpacity := 0.0, name := "Erase Area")
    case Caligraphy => p.(segmentLength := 2, name := "Calligraphy")
  }

  /** The dispatch table of `Pen.create`: both ids of a pair go to one family,
      and an id the table does not list has none. */
  function FamilyOf(tool: Scene.Tool): (f: Option<Family>)
    ensures f.None? <==> tool.Unlisted?
  {
    match tool
    case Paintbrush1 | Paintbrush2 => Some(Brush)
    case Caligraphy => Some(Caligraphy)
    case Marker1 | Marker2 => Some(Marker)
    case Ballpoint1 | Ballpoint2 => Some(Ballpoint)
    case Fineliner1 | Fineliner2 => Some(Fineliner)
    case Pencil1 | Pencil2 => Some(Pencil)
    case MechanicalPencil1 | MechanicalPencil2 => Some(MechanicalPencil)
    case Highlighter1 | Highlighter2 => Some(Highlighter)
    case Shader => Some(Shader)
    case EraserArea => Some(EraseArea)
    case Eraser => Some(Eraser)
    case Unlisted(_) => None
  }

  /** `Pen.create(pen_nr, color_id, width)`. Highlighters and the shader
      replace the width; the eraser replaces the colour. */
  function Create(tool: Scene.Tool, color: ColorRef, width: real, pow: (real, real) -> real): (r: Result<Pen, Error>)
    ensures r.Success? ==> Some(r.value.family) == FamilyOf(tool) && r.value.segmentLength >= 2
  {
    match FamilyOf(tool)
    case None => Failure(UnknownTool)
    case Some(family) => Build(family, color, width, pow)
  }

  /** The body of one `case` of `Pen.create`, once the family is known. */
  function Build(family: Family, color: ColorRef, width: real, pow: (real, real) -> real): Result<Pen, Error> {
    var w := if family == Highlighter then 25.0 else if family == Shader then 12.0 else width;
    var c := if family == Eraser then PaletteColor(Scene.White) else color;
    var base :- PostInit(family, w, c);
    Success(Refine(base, pow))
  }

  // ---------------------------------------------------------------------
  // Per-segment formulas

  /** `Pen.direction_to_tilt`: a direction byte in [0, 255] becomes an angle
      in [0, 2·pi]. */
  function DirectionToTilt(direction: real): (t: real)
    ensures 0.0 <= direction ==> 0.0 <= t
    ensures direction <= 255.0 ==> t <= 2.0 * PI
  {
    direction * (PI * 2.0) / 255.0
  }

  /** `Pen.cutoff`: clamp into [0, 1]. */
  function Cutoff(v: real): (r: real)
    ensures 0.0 <= r <= 1.0
    ensures 0.0 <= v <= 1.0 ==> r == v
    ensures v < 0.0 ==> r == 0.0
    ensures v > 1.0 ==> r == 1.0
  {
    Max(0.0, Min(1.0, v))
  }

  /** `get_segment_width(speed, direction, width, pressure, last_width)` of
      the pen's family. */
  function SegmentWidth(pen: Pen, p: Scene.Point, lastWidth: real, pow: (real, real) -> real): (w: real)
    ensures pen.family == Pencil ==> w <= pen.baseWidth * 10.0
    ensures pen.family !in {Ballpoint, Marker, Pencil, Brush, Caligraphy} ==> w == pen.baseWidth
  {
    match pen.family
    case Ballpoint =>
      (0.5 + p.pressure / 255.0) + (1.0 * p.width / 4.0) - 0.5 * ((p.speed / 4.0) / 50.0)
    case Marker =>
      0.9 * ((p.width / 4.0) - 0.4 * DirectionToTilt(p.direction)) + (0.1 * lastWidth)
    case Pencil =>
      var raw := 0.7 * ((((0.8 * pen.baseWidth) + (0.5 * p.pressure / 255.0)) * (p.width / 4.0))
                        - (0.25 * pow(DirectionToTilt(p.direction), 1.8))
                        - (0.6 * (p.speed / 4.0) / 50.0));
      var maxWidth := pen.baseWidth * 10.0;
      if raw < maxWidth then raw else maxWidth
    case Brush =>
      0.7 * (((1.0 + (1.4 * p.pressure / 255.0)) * (p.width / 4.0))
             - (0.5 * DirectionToTilt(p.direction))
             - ((p.speed / 4.0) / 50.0))
    case Caligraphy =>
      0.9 * (((1.0 + p.pressure / 255.0) * (p.width / 4.0)) - 0.3 * DirectionToTilt(p.direction)) + (0.1 * lastWidth)
    case _ => pen.baseWidth
  }

  /** `get_segment_opacity`: only the pencil depends on the point. */
  function SegmentOpacity(pen: Pen, p: Scene.Point, lastWidth: real): (o: real)
    ensures pen.family == Pencil ==> -0.1 <= o <= 0.9
    ensures pen.family != Pencil ==> o == pen.baseOpacity
  {
    if pen.family == Pencil then
      Cutoff((0.1 * -((p.speed / 4.0) / 35.0)) + (1.0 * p.pressure / 255.0)) - 0.1
    else pen.baseOpacity
  }

  /** `get_segment_color`, as the three channels of the `rgb(...)` string it
      formats. */
  function SegmentColor(pen: Pen, p: Scene.Point, lastWidth: real, pow: (real, real) -> real): (c: Rgb)
    ensures pen.family == Ballpoint ==> c.r == c.g == c.b
    ensures pen.family == Brush ==>
      c.r <= 255 - pen.baseColor.r && c.g <= 255 - pen.baseColor.g && c.b <= 255 - pen.baseColor.b
    ensures pen.family !in {Ballpoint, Brush} ==> c == pen.baseColor
  {
    if pen.family == Ballpoint then
      var intensity := Cutoff((0.1 * -((p.speed / 4.0) / 35.0)) + (1.2 * p.pressure / 255.0) + 0.5);
      var v := Int((1.0 - intensity) * 255.0);
      Rgb(v, v, v)
    else if pen.family == Brush then
      var intensity := Cutoff((pow(p.pressure / 255.0, 1.5) - 0.2 * ((p.speed / 4.0) / 50.0)) * 1.5);
      var rev := 1.0 - intensity;
      Rgb(Scaled(rev, pen.baseColor.r), Scaled(rev, pen.baseColor.g), Scaled(rev, pen.baseColor.b))
    else pen.baseColor
  }

  /** `int(rev * (255 - base))` for a factor in [0, 1]. */
  function Scaled(rev: real, base: Byte): (v: Byte)
    requires 0.0 <= rev <= 1.0
    ensures v <= 255 - base
  {
    var room := (255 - base) as real;
    FractionBound(rev, room);
    var n := Int(rev * room);
    assert n as real <= room;
    n
  }

  lemma FractionBound(a: real, b: real)
    requires 0.0 <= a <= 1.0 && 0.0 <= b
    ensures 0.0 <= a * b <= b
  {
    assert b - a * b == (1.0 - a) * b;
  }

  // ---------------------------------------------------------------------
  // What `Pen.create` promises

  /** The call fails exactly for an unlisted tool id (tool error) or, except
      for the eraser, the palette's missing highlight colour (colour error). */
  lemma CreateFails(tool: Scene.Tool, color: ColorRef, width: real, pow: (real, real) -> real)
    ensures Create(tool, color, width, pow).Failure? <==>
      tool.Unlisted? || (tool != Scene.Eraser && color == PaletteColor(Scene.Highlight))
    ensures tool.Unlisted? ==> Create(tool, color, width, pow) == Failure(UnknownTool)
    ensures !tool.Unlisted? && Create(tool, color, width, pow).Failure? ==>
      Create(tool, color, width, pow) == Failure(UnknownColor)
  {
  }

  /** The two ids of each pair build the same pen. */
  lemma CreatePairs(color: ColorRef, width: real, pow: (real, real) -> real)
    ensures Create(Scene.Paintbrush1, color, width, pow) == Create(Scene.Paintbrush2, color, width, pow)
    ensures Create(Scene.Marker1, color, width, pow) == Create(Scene.Marker2, color, width, pow)
    ensures Create(Scene.Ballpoint1, color, width, pow) == Create(Scene.Ballpoint2, color, width, pow)
    ensures Create(Scene.Fineliner1, color, width, pow) == Create(Scene.Fineliner2, color, width, pow)
    ensures Create(Scene.Pencil1, color, width, pow) == Create(Scene.Pencil2, color, width, pow)
    ensures Create(Scene.MechanicalPencil1, color, width, pow) == Create(Scene.MechanicalPencil2, color, width, pow)
    ensures Create(Scene.Highlighter1, color, width, pow) == Create(Scene.Highlighter2, color, width, pow)
  {
    assert FamilyOf(Scene.Paintbrush1) == FamilyOf(Scene.Paintbrush2) == Some(Brush);
    assert FamilyOf(Scene.Marker1) == FamilyOf(Scene.Marker2) == Some(Marker);
    assert FamilyOf(Scene.Ballpoint1) == FamilyOf(Scene.Ballpoint2) == Some(Ballpoint);
    assert FamilyOf(Scene.Fineliner1) == FamilyOf(Scene.Fineliner2) == Some(Fineliner);
    assert FamilyOf(Scene.Pencil1) == FamilyOf(Scene.Pencil2) == Some(Pencil);
    assert FamilyOf(Scene.MechanicalPencil1) == FamilyOf(Scene.MechanicalPencil2) == Some(MechanicalPencil);
    assert FamilyOf(Scene.Highlighter1) == FamilyOf(Scene.Highlighter2) == Some(Highlighter);
  }

  /** An RGBA colour gives its first three channels and opacity a/255; a
      palette id gives the palette colour with opacity 1. The stroke colour is
      the base colour. The eraser is left out: it always uses white. */
  lemma CreateColor(tool: Scene.Tool, color: ColorRef, width: real, pow: (real, real) -> real)
    requires tool != Scene.Eraser && Create(tool, color, width, pow).Success?
    ensures var pen := Create(tool, color, width, pow).value;
      pen.strokeColor == pen.baseColor &&
      (color.RgbaColor? ==> pen.baseColor == color.rgb && pen.strokeOpacity == color.a as real / 255.0) &&
      (color.PaletteColor? ==> Some(pen.baseColor) == Palette(color.id) && pen.strokeOpacity == 1.0)
  {
  }

  /** The highlighters ignore the requested width and use 25; the shader uses 12. */
  lemma CreateFixedWidths(color: ColorRef, width: real, pow: (real, real) -> real)
    requires color != PaletteColor(Scene.Highlight)
    ensures Create(Scene.Highlighter1, color, width, pow).value.baseWidth == 25.0
    ensures Create(Scene.Highlighter1, color, width, pow).value.strokeWidth == 25.0
    ensures Create(Scene.Shader, color, width, pow).value.baseWidth == 12.0
    ensures Create(Scene.Shader, color, width, pow).value.strokeWidth == 12.0
  {
  }

  /** The eraser never fails, is always white, and doubles its base width
      while its stroke width stays the requested one. */
  lemma CreateEraser(color: ColorRef, width: real, pow: (real, real) -> real)
    ensures Create(Scene.Eraser, color, width, pow).Success?
    ensures var pen := Create(Scene.Eraser, color, width, pow).value;
      pen.baseColor == White && pen.strokeColor == White &&
      pen.baseWidth == 2.0 * width && pen.strokeWidth == width && pen.linecap == Square
  {
  }

  /** The stroke width is the width handed to the base constructor, so the
      fineliner, the mechanical pencil and the eraser keep the unscaled
      width there while their base width is rescaled. */
  lemma CreateStrokeWidth(tool: Scene.Tool, color: ColorRef, width: real, pow: (real, real) -> real)
    requires Create(tool, color, width, pow).Success?
    requires tool !in {Scene.Highlighter1, Scene.Highlighter2, Scene.Shader}
    ensures var pen := Create(tool, color, width, pow).value;
      pen.strokeWidth == width &&
      (pen.family == Fineliner ==> pen.baseWidth == pow(width, 2.1) * 1.3) &&
      (pen.family == MechanicalPencil ==> pen.baseWidth == width * width) &&
      (pen.family == Eraser ==> pen.baseWidth == 2.0 * width) &&
      (pen.family !in {Fineliner, MechanicalPencil, Eraser} ==> pen.baseWidth == width)
  {
  }

  /** The segment length, line cap and base opacity of each family. */
  lemma CreateStyle(tool: Scene.Tool, color: ColorRef, width: real, pow: (real, real) -> real)
    requires Create(tool, color, width, pow).Success?
    ensures var pen := Create(tool, color, width, pow).value;
      pen.segmentLength == (match pen.family
        case Ballpoint => 5 case Marker => 3
        case Pencil | Brush | Caligraphy => 2
        case _ => 1000) &&
      pen.linecap == (if pen.family in {Highlighter, Eraser, EraseArea} then Square else Round) &&
      pen.baseOpacity == (match pen.family
        case MechanicalPencil => 0.7 case Highlighter => 0.3
        case Shader => 0.1 case EraseArea => 0.0
        case _ => 1.0)
  {
  }

  /** Families without their own formulas ignore the point's dynamics. */
  lemma DefaultSegmentIndependent(pen: Pen, p: Scene.Point, q: Scene.Point, l: real, m: real, pow: (real, real) -> real)
    requires pen.family !in {Ballpoint, Marker, Pencil, Brush, Caligraphy}
    ensures SegmentWidth(pen, p, l, pow) == SegmentWidth(pen, q, m, pow) == pen.baseWidth
    ensures SegmentOpacity(pen, p, l) == SegmentOpacity(pen, q, m) == pen.baseOpacity
    ensures SegmentColor(pen, p, l, pow) == SegmentColor(pen, q, m, pow) == pen.baseColor
  {
  }
}
