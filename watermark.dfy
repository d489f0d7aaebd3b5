/** WatermarkApp.apply_watermark: the text path or the image path, chosen by the watermark type. */
module Watermark {
  import opened Common
  import opened Geometry
  import opened TextWatermark
  import opened ImageWatermark

  /**
   * The controls a render reads: the watermark type ("text" or anything else
   * for an image), the anchor, the rotation angle, the size Pillow's expanding
   * rotation gives a layer, and the settings of each path.
   */
  datatype Settings = Settings(kind: string, position: string, angle: int, turn: Size -> Size, text: TextSettings, image: ImageSettings)

  /** The loaded picture, if any, carries alpha values in 0..255. */
  predicate Ready(s: Settings) {
    s.image.picture.Some? ==> ValidAlpha(s.image.picture.value.alpha)
  }

  /** An exception escaped apply_watermark, or it returned an image. */
  datatype Rendered = Raised | Returned(image: Raster)

  /**
   * apply_watermark. Only the text path can raise; the image path reports
   * its own errors and hands back the image, so it always returns.
   */
  function ApplyWatermark(s: Settings, base: Raster, now: Moment): (r: Rendered)
    requires Ready(s) && Formattable(now)
    ensures s.kind != "text" ==> r.Returned?
    ensures r.Returned? ==> r.image.size == base.size
    ensures s.kind == "text" && r.Returned? ==> r.image.mode == "RGBA"
    ensures s.kind == "text" ==> (r.Raised? <==> ApplyText(base, s.text, now, s.angle, s.turn, s.position).None?)
    ensures s.kind != "text" && Configured(s.image) && s.image.picture.Some? ==> r.image.mode == "RGBA"
    ensures s.kind != "text" && (!Configured(s.image) || s.image.picture.None?) ==> r == Returned(base)
  {
    if s.kind == "text" then
      match ApplyText(base, s.text, now, s.angle, s.turn, s.position)
      case None => Raised
      case Some(t) => Returned(t.image)
    else
      Returned(ApplyImage(base, s.image, s.angle, s.turn, s.position).image)
  }
}
