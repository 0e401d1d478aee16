/** The decoded scene blocks the pipeline reads. Decoding the `.rm` format is
    the job of the external `rmscene` library and is not part of this model;
    these datatypes hold only the fields of its blocks that the modelled code
    looks at. */
module Scene {
  import opened Common

  /** The tool ids of `rmscene.scene_items.Pen`; `Unlisted` stands for any
      other id that reaches `Pen.create`. */
  datatype Tool =
    | Paintbrush1 | Paintbrush2 | Caligraphy | Marker1 | Marker2
    | Ballpoint1 | Ballpoint2 | Fineliner1 | Fineliner2 | Pencil1 | Pencil2
    | MechanicalPencil1 | MechanicalPencil2 | Highlighter1 | Highlighter2
    | Shader | EraserArea | Eraser
    | Unlisted(code: int)

  /** The colour ids of `rmscene.scene_items.PenColor`. */
  datatype PenColor =
    | Black | Gray | White | Yellow | Green | Pink | Blue | Red | GrayOverlap
    | Highlight | Green2 | Cyan | Magenta | Yellow2

  /** One sampled pen position with its dynamics, in the decoder's units. */
  datatype Point = Point(x: real, y: real, speed: real, direction: real, width: real, pressure: real)

  /** The value of a stroke item. It has points and no text. */
  datatype Line = Line(color: PenColor, tool: Tool, points: seq<Point>, thicknessScale: real)

  /** The value of a glyph (text selection) item. It has text and no points. */
  datatype GlyphRange = GlyphRange(color: PenColor, text: string)

  datatype ParagraphStyle = Basic | Plain | Heading | Bold | Bullet | Bullet2 | Checkbox | CheckboxChecked

  /** One entry of a text block's character sequence. */
  datatype TextItem = TextItem(itemId: int, leftId: int, value: string)

  /** A text block: its anchor, its items in sequence order, and the paragraph
      style recorded for some item ids. */
  datatype RootText = RootText(posX: real, posY: real, items: seq<TextItem>, styles: map<int, ParagraphStyle>)

  /** A decoded block. Stroke and glyph blocks carry the item's deletion length,
      its value (absent for an empty item) and the block's trailing raw bytes. */
  datatype Block =
    | LineBlock(deletedLength: int, line: Option<Line>, extraData: seq<Byte>)
    | GlyphBlock(deletedLength: int, glyph: Option<GlyphRange>, extraData: seq<Byte>)
    | RootTextBlock(root: RootText)
    | UnreadableBlock
    | OtherBlock
}
