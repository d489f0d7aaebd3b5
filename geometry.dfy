/**
 * Placement of a watermark on an image (WatermarkApp.get_watermark_position).
 * Sizes and offsets are plain integers: nothing is clamped, so a watermark
 * larger than the image gets a negative offset and Pillow's paste clips it.
 */
module Geometry {

  /** Distance in pixels kept between the watermark and the image edge it is anchored to. */
  const Margin: int := 20

  datatype Size = Size(width: int, height: int)

  datatype Point = Point(x: int, y: int)

  /** An image as far as this model needs one: its size and its Pillow mode ("RGB", "RGBA", "P", ...). */
  datatype Raster = Raster(size: Size, mode: string)

  /** Where the watermark sits along one axis of the nine-way grid. */
  datatype Align = Start | Middle | End

  /** The nine anchor names offered by the position selector. */
  const Anchors: set<string> := {
    "top-left", "top-center", "top-right",
    "middle-left", "center", "middle-right",
    "bottom-left", "bottom-center", "bottom-right" }

  /** The grid column an anchor name selects; any name outside the left and centre columns reads as the right one. */
  function Column(position: string): Align {
    if position in {"top-left", "middle-left", "bottom-left"} then Start
    else if position in {"top-center", "center", "bottom-center"} then Middle
    else End
  }

  /** The grid row an anchor name selects; any name outside the top and middle rows reads as the bottom one. */
  function Row(position: string): Align {
    if position in {"top-left", "top-center", "top-right"} then Start
    else if position in {"middle-left", "center", "middle-right"} then Middle
    else End
  }

  /**
   * What it means for a watermark of length `length` to sit at `offset` on an
   * axis of length `extent`: a margin's distance from the near edge, exactly
   * centred with any odd pixel going to the far side, or a margin's distance
   * from the far edge.
   */
  predicate Aligned(a: Align, offset: int, extent: int, length: int) {
    match a
    case Start => offset == Margin
    case Middle => offset <= extent - (offset + length) <= offset + 1
    case End => extent - (offset + length) == Margin
  }

  /** Top-left corner at which a watermark of size `mark` is pasted onto an image of size `image`. */
  function Place(image: Size, mark: Size, position: string): (p: Point)
    ensures Aligned(Column(position), p.x, image.width, mark.width)
    ensures Aligned(Row(position), p.y, image.height, mark.height)
  {
    var margin := Margin;
    if position == "top-left" then Point(margin, margin)
    else if position == "top-center" then Point((image.width - mark.width) / 2, margin)
    else if position == "top-right" then Point(image.width - mark.width - margin, margin)
    else if position == "middle-left" then Point(margin, (image.height - mark.height) / 2)
    else if position == "center" then Point((image.width - mark.width) / 2, (image.height - mark.height) / 2)
    else if position == "middle-right" then Point(image.width - mark.width - margin, (image.height - mark.height) / 2)
    else if position == "bottom-left" then Point(margin, image.height - mark.height - margin)
    else if position == "bottom-center" then Point((image.width - mark.width) / 2, image.height - mark.height - margin)
    else Point(image.width - mark.width - margin, image.height - mark.height - margin)
  }

  /** The alignment predicate pins the offset down: Place has exactly one possible answer. */
  lemma AlignedIsUnique(a: Align, o1: int, o2: int, extent: int, length: int)
    requires Aligned(a, o1, extent, length) && Aligned(a, o2, extent, length)
    ensures o1 == o2
  {
  }

  /** Any name outside the nine anchors falls through to the bottom-right placement. */
  lemma UnknownAnchorIsBottomRight(image: Size, mark: Size, position: string)
    requires position !in Anchors
    ensures Place(image, mark, position) == Place(image, mark, "bottom-right")
    ensures Place(image, mark, position)
         == Point(image.width - mark.width - Margin, image.height - mark.height - Margin)
  {
  }

  /**
   * Nothing is clamped: a right-anchored watermark starts left of the image
   * exactly when it is wider than the image less the margin, a centred one
   * exactly when it is wider than the image.
   */
  lemma PlacementIsNotClamped(image: Size, mark: Size, position: string)
    ensures Column(position) == End ==> (Place(image, mark, position).x < 0 <==> mark.width > image.width - Margin)
    ensures Column(position) == Middle ==> (Place(image, mark, position).x < 0 <==> mark.width > image.width)
    ensures Row(position) == End ==> (Place(image, mark, position).y < 0 <==> mark.height > image.height - Margin)
    ensures Row(position) == Middle ==> (Place(image, mark, position).y < 0 <==> mark.height > image.height)
  {
  }

  /**
   * Centring rounds toward minus infinity (Python's //), not toward zero: a
   * watermark 3 pixels wider than the image starts 2 pixels to the left.
   */
  lemma CentringFloors()
    ensures Place(Size(100, 100), Size(103, 10), "center") == Point(-2, 45)
  {
  }
}
