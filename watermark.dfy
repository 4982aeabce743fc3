/**
 * The watermark settings and the drawing step of `addWatermark`: where the date
 * text is anchored for each placement policy, and what the drawn image records.
 */
module Watermark {
  import opened Int32
  import opened JavaStrings

  /** An sRGB colour as `java.awt.Color` holds it. */
  datatype Rgb = Rgb(red: int, green: int, blue: int)

  /** The immutable settings read once at start-up (class WatermarkConfig). */
  datatype WatermarkConfig = WatermarkConfig(fontSize: int32, fontColor: Rgb, position: string)

  /** The placement policy selected by the lower-cased position text. */
  datatype Position = LeftTop | Center | RightBottom | Unrecognised

  /** A decoded image, reduced to the dimensions the placement uses. */
  datatype Raster = Raster(width: int32, height: int32)

  /** What the font engine reports for the text: `stringWidth` and `getHeight`. */
  datatype TextMetrics = TextMetrics(textWidth: int32, textHeight: int32)

  /** The baseline anchor at which the text is drawn. */
  datatype Anchor = Anchor(x: int32, y: int32)

  /** The watermarked image: its size, and the text drawn onto it, where and how. */
  datatype Stamp = Stamp(width: int32, height: int32, text: string, at: Anchor, fontSize: int32, fontColor: Rgb)

  /** The `switch` on `position.toLowerCase()`. */
  function ParsePosition(position: string): Position {
    var p := ToLower(position);
    if p == "left-top" then LeftTop
    else if p == "center" then Center
    else if p == "right-bottom" then RightBottom
    else Unrecognised
  }

  /** The anchor for each policy, in Java `int` arithmetic. */
  function Place(width: int32, height: int32, m: TextMetrics, position: string): Anchor {
    match ParsePosition(position)
    case LeftTop => Anchor(10, m.textHeight)
    case Center => Anchor(Half(Sub(width, m.textWidth)), Add(Half(Sub(height, m.textHeight)), m.textHeight))
    case RightBottom => Anchor(Sub(Sub(width, m.textWidth), 10), Sub(height, 10))
    case Unrecognised => Anchor(10, m.textHeight)
  }

  /** `addWatermark`: a new image of the same size with `text` drawn at the placed anchor. */
  function Render(image: Raster, text: string, config: WatermarkConfig, m: TextMetrics): (r: Stamp)
    ensures r.width == image.width && r.height == image.height
    ensures r.text == text
    ensures r.at == Place(image.width, image.height, m, config.position)
    ensures r.fontSize == config.fontSize && r.fontColor == config.fontColor
  {
    Stamp(image.width, image.height, text, Place(image.width, image.height, m, config.position),
          config.fontSize, config.fontColor)
  }

  /** Position matching ignores case: "CENTER" behaves like "center". */
  lemma PositionIgnoresCase(position: string)
    ensures ParsePosition(position) == ParsePosition(ToLower(position))
    ensures forall w: int32, h: int32, m: TextMetrics ::
      Place(w, h, m, position) == Place(w, h, m, ToLower(position))
  {
    ToLowerIdempotent(position);
  }

  /** Policy names are recognised whatever their letter case ... */
  lemma LeftTopAnyCase(position: string)
    requires position == "LEFT-TOP"
    ensures ParsePosition(position) == LeftTop
  {
    ToLowerIs(position, "left-top");
  }

  lemma RightBottomAnyCase(position: string)
    requires position == "Right-Bottom"
    ensures ParsePosition(position) == RightBottom
  {
    ToLowerIs(position, "right-bottom");
  }

  /** ... but a misspelt one falls through to the default branch. */
  lemma MisspeltPolicyUnrecognised(position: string)
    requires position == "Centre"
    ensures ParsePosition(position) == Unrecognised
  {
    ToLowerIs(position, "centre");
  }

  /** `left-top`, and any text that is not a policy name, anchor at (10, textHeight). */
  lemma PlaceLeftTop(width: int32, height: int32, m: TextMetrics, position: string)
    requires ParsePosition(position) in {LeftTop, Unrecognised}
    ensures Place(width, height, m, position) == Anchor(10, m.textHeight)
    ensures Place(width, height, m, position) == Place(width, height, m, "left-top")
  {
    assert ToLower("left-top") == "left-top";
  }

  /** True when none of the placement's subtractions and additions leaves the `int` range. */
  predicate NoOverflow(width: int, height: int, m: TextMetrics) {
    InRange(width - m.textWidth - 10) && InRange(width - m.textWidth) &&
    InRange(height - m.textHeight) && InRange(height - 10)
  }

  /**
   * `center` halves the free space, truncating toward zero: with room to spare the
   * anchor sits at or just left of the middle, and with text wider than the image it
   * sits at or just right of it (never further out than the exact half).
   */
  lemma PlaceCenter(width: int32, height: int32, m: TextMetrics, position: string)
    requires ParsePosition(position) == Center
    requires InRange(width - m.textWidth) && InRange(height - m.textHeight)
    ensures var a := Place(width, height, m, position);
      && (width >= m.textWidth ==> 2 * a.x <= width - m.textWidth <= 2 * a.x + 1)
      && (width < m.textWidth ==> 2 * a.x - 1 <= width - m.textWidth <= 2 * a.x)
      && (height >= m.textHeight ==> 2 * (a.y - m.textHeight) <= height - m.textHeight <= 2 * (a.y - m.textHeight) + 1)
      && (height < m.textHeight ==> 2 * (a.y - m.textHeight) - 1 <= height - m.textHeight <= 2 * (a.y - m.textHeight))
  {
    var qy := Half(height - m.textHeight);
    assert InRange(qy + m.textHeight);
  }

  /** A wider-than-image text under `center` gets a negative x, as truncation gives it. */
  lemma PlaceCenterTruncates(position: string)
    requires position == "CENTER"
    ensures Place(10, 10, TextMetrics(13, 4), position) == Anchor(-1, 7)
  {
    ToLowerIs(position, "center");
  }

  /** `right-bottom` keeps 10 pixels from the right and bottom edges, without clamping. */
  lemma PlaceRightBottom(width: int32, height: int32, m: TextMetrics, position: string)
    requires ParsePosition(position) == RightBottom
    requires NoOverflow(width, height, m)
    ensures var a := Place(width, height, m, position);
      && a.x + m.textWidth + 10 == width && a.y + 10 == height
      && (a.x < 0 <==> width < m.textWidth + 10)
  {
  }
}
