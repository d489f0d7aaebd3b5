/**
 * The image path of WatermarkApp.apply_image_watermark: the user opacity is
 * folded into the watermark picture's own alpha channel, and the picture is
 * placed on the image. Loading, resizing and rotating the picture are
 * Pillow's; they enter as their results.
 */
module ImageWatermark {
  import opened Common
  import opened Geometry

  /** `int(p * opacity / 255)`: an alpha value `p` scaled by an opacity, both on 0..255. */
  function ScaleAlpha(p: nat, opacity: nat): (q: nat)
    requires p <= 255 && opacity <= 255
    ensures q * 255 <= p * opacity < q * 255 + 255
    ensures q <= p && q <= opacity
  {
    MulBounded(p, opacity);
    p * opacity / 255
  }

  lemma MulBounded(p: nat, opacity: nat)
    requires p <= 255 && opacity <= 255
    ensures p * opacity <= p * 255 && p * opacity <= 255 * opacity
  {
    MulMonotone(opacity, 255, p);
    MulMonotone(p, 255, opacity);
  }

  lemma {:induction false} MulMonotone(a: nat, b: nat, c: nat)
    requires a <= b
    ensures a * c <= b * c
  {
    if c > 0 {
      MulMonotone(a, b, c - 1);
      assert a * c == a * (c - 1) + a;
      assert b * c == b * (c - 1) + b;
    }
  }

  /** A brighter alpha never scales to a dimmer one. */
  lemma ScaleAlphaMonotone(p1: nat, p2: nat, opacity: nat)
    requires p1 <= p2 <= 255 && opacity <= 255
    ensures ScaleAlpha(p1, opacity) <= ScaleAlpha(p2, opacity)
  {
    var q1, q2 := ScaleAlpha(p1, opacity), ScaleAlpha(p2, opacity);
    MulMonotone(p1, p2, opacity);
    assert q1 * 255 < (q2 + 1) * 255;
    assert q1 < q2 + 1;
  }

  /** Transparent stays transparent, and full opacity leaves every alpha as it was. */
  lemma ScaleAlphaEnds(p: nat, opacity: nat)
    requires p <= 255 && opacity <= 255
    ensures ScaleAlpha(0, opacity) == 0
    ensures ScaleAlpha(p, 0) == 0
    ensures ScaleAlpha(p, 255) == p
  {
  }

  /** Opacities multiply rather than override: alpha 128 at opacity 127 gives 63, not 127 (and not the rounded 64). */
  lemma ScaleAlphaExample()
    ensures ScaleAlpha(128, 127) == 63
  {
  }

  /** A watermark picture after loading and resizing: its size and its alpha channel, pixel by pixel. */
  datatype Picture = Picture(size: Size, alpha: seq<nat>)

  predicate ValidAlpha(alpha: seq<nat>) {
    forall i :: 0 <= i < |alpha| ==> alpha[i] <= 255
  }

  /** The alpha channel after `if opacity < 255: alpha.point(...)`. */
  function FoldOpacity(alpha: seq<nat>, opacity: nat): (r: seq<nat>)
    requires ValidAlpha(alpha)
    ensures |r| == |alpha| && ValidAlpha(r)
    ensures 255 <= opacity ==> r == alpha
    ensures opacity < 255 ==> forall i :: 0 <= i < |r| ==> r[i] == ScaleAlpha(alpha[i], opacity)
    ensures forall i :: 0 <= i < |r| ==> r[i] <= alpha[i]
    ensures opacity < 255 ==> forall i :: 0 <= i < |r| ==> r[i] <= opacity
    ensures forall i :: 0 <= i < |r| && alpha[i] == 0 ==> r[i] == 0
    ensures forall i, j :: 0 <= i < |r| && 0 <= j < |r| && alpha[i] <= alpha[j] ==> r[i] <= r[j]
  {
    if opacity < 255 then
      var r := seq(|alpha|, i requires 0 <= i < |alpha| => ScaleAlpha(alpha[i], opacity));
      forall i, j | 0 <= i < |r| && 0 <= j < |r| && alpha[i] <= alpha[j] ensures r[i] <= r[j] {
        ScaleAlphaMonotone(alpha[i], alpha[j], opacity);
      }
      r
    else alpha
  }

  /**
   * What the image path needs besides the image: the configured picture path
   * (None or "" when none is set), the picture as loaded and resized (None
   * when that raised), and the 0..255 opacity.
   */
  datatype ImageSettings = ImageSettings(path: Option<string>, picture: Option<Picture>, opacity: nat)

  predicate Configured(s: ImageSettings) {
    s.path.Some? && s.path.value != ""
  }

  /** Result of the image path: the image handed back untouched, or the picture composited onto it. */
  datatype ImageRender =
    | Untouched(image: Raster)
    | Composited(image: Raster, mark: Picture, placed: Size, at: Point)

  /**
   * apply_image_watermark on an image. With no picture configured, or when
   * loading the picture fails (the error is reported and swallowed), the
   * image comes back as it was, in its own mode.
   */
  function ApplyImage(base: Raster, s: ImageSettings, angle: int, turn: Size -> Size, position: string): (r: ImageRender)
    requires s.picture.Some? ==> ValidAlpha(s.picture.value.alpha)
    ensures !Configured(s) || s.picture.None? ==> r == Untouched(base)
    ensures Configured(s) && s.picture.Some? ==> r.Composited?
    ensures r.Composited? ==> r.image == Raster(base.size, "RGBA")
    ensures r.Composited? ==>
      && r.mark.size == s.picture.value.size
      && r.mark.alpha == FoldOpacity(s.picture.value.alpha, s.opacity)
    ensures r.Composited? && angle == 0 ==> r.placed == s.picture.value.size
    ensures r.Composited? && angle != 0 ==> r.placed == turn(r.mark.size)
    ensures r.Composited? ==> Aligned(Column(position), r.at.x, base.size.width, r.placed.width)
    ensures r.Composited? ==> Aligned(Row(position), r.at.y, base.size.height, r.placed.height)
  {
    if !Configured(s) then Untouched(base)
    else
      match s.picture
      case None => Untouched(base)
      case Some(picture) =>
        var mark := Picture(picture.size, FoldOpacity(picture.alpha, s.opacity));
        var placed := if angle != 0 then turn(mark.size) else mark.size;
        Composited(Raster(base.size, "RGBA"), mark, placed, Place(base.size, placed, position))
  }
}
