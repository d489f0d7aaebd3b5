/**
 * The text path of WatermarkApp.apply_text_watermark: the text actually
 * drawn (the entry, or the current time when the entry is blank), the
 * layer the text is drawn on, and where that layer lands on the image.
 * The font is a collaborator that measures a string's bounding box.
 */
module TextWatermark {
  import opened Common
  import opened Geometry

  /** The characters Python's str.isspace accepts, i.e. those str.strip() removes. */
  predicate IsSpace(c: char) {
    || c == ' '
    || '\t' <= c <= '\r'
    || '\U{1c}' <= c <= '\U{1f}'
    || c == '\U{85}' || c == '\U{a0}' || c == '\U{1680}'
    || '\U{2000}' <= c <= '\U{200a}'
    || c == '\U{2028}' || c == '\U{2029}' || c == '\U{202f}' || c == '\U{205f}' || c == '\U{3000}'
  }

  /** Empty or made of whitespace only. */
  predicate Blank(s: string) {
    forall i :: 0 <= i < |s| ==> IsSpace(s[i])
  }

  /** `s` holds whitespace at `j`. */
  predicate SpaceAt(s: string, j: int)
    requires 0 <= j < |s|
  {
    IsSpace(s[j])
  }

  /** Dropping a leading whitespace character changes neither blankness nor where the whitespace run ends. */
  lemma DropLeadingSpace(s: string, tail: string, k: nat)
    requires 0 < |s| && IsSpace(s[0]) && tail == s[1..] && k < |s|
    requires forall j :: 0 <= j < k ==> SpaceAt(tail, j)
    ensures Blank(s) <==> Blank(tail)
    ensures forall j :: 0 <= j < k + 1 ==> SpaceAt(s, j)
  {
    assert forall i :: 1 <= i < |s| ==> s[i] == tail[i - 1];
    forall j | 1 <= j < k + 1 ensures SpaceAt(s, j) {
      assert SpaceAt(tail, j - 1);
    }
  }

  /** Dropping a trailing whitespace character changes neither blankness nor where the whitespace run starts. */
  lemma DropTrailingSpace(s: string, front: string, k: nat)
    requires 0 < |s| && IsSpace(s[|s| - 1]) && front == s[..|s| - 1] && k < |s|
    requires forall j :: k <= j < |s| - 1 ==> SpaceAt(front, j)
    ensures Blank(s) <==> Blank(front)
    ensures forall j :: k <= j < |s| ==> SpaceAt(s, j)
  {
    assert forall i :: 0 <= i < |s| - 1 ==> s[i] == front[i];
    forall j | k <= j < |s| - 1 ensures SpaceAt(s, j) {
      assert SpaceAt(front, j);
    }
  }

  /** str.lstrip(): the tail left after dropping leading whitespace, which is all it drops. */
  function TrimStart(s: string): (r: string)
    ensures |r| <= |s| && r == s[|s| - |r|..]
    ensures r == "" <==> Blank(s)
    ensures r != "" ==> !IsSpace(r[0])
    ensures forall j :: 0 <= j < |s| - |r| ==> SpaceAt(s, j)
  {
    if |s| > 0 && IsSpace(s[0]) then
      var tail := s[1..];
      var r := TrimStart(tail);
      DropLeadingSpace(s, tail, |tail| - |r|);
      assert tail[|tail| - |r|..] == s[|s| - |r|..];
      r
    else s
  }

  /** str.rstrip(): the head left after dropping trailing whitespace, which is all it drops. */
  function TrimEnd(s: string): (r: string)
    ensures |r| <= |s| && r == s[..|r|]
    ensures r == "" <==> Blank(s)
    ensures r != "" ==> !IsSpace(r[|r| - 1])
    ensures forall j :: |r| <= j < |s| ==> SpaceAt(s, j)
  {
    if |s| > 0 && IsSpace(s[|s| - 1]) then
      var front := s[..|s| - 1];
      var r := TrimEnd(front);
      DropTrailingSpace(s, front, |r|);
      assert front[..|r|] == s[..|r|];
      r
    else s
  }

  /** str.strip(). */
  function Strip(s: string): (r: string)
    ensures |r| <= |s|
    ensures r != "" ==> !IsSpace(r[0]) && !IsSpace(r[|r| - 1])
  {
    TrimEnd(TrimStart(s))
  }

  /**
   * strip() removes whitespace only, and only around the text: what it
   * returns is the slice of the text that starts where lstrip's tail does,
   * and every character before or after that slice is whitespace.
   */
  lemma StripRemovesOnlyWhitespace(s: string)
    ensures var i, r := |s| - |TrimStart(s)|, Strip(s);
      && i + |r| <= |s|
      && (forall j :: 0 <= j < |r| ==> r[j] == s[i + j])
      && (forall j :: 0 <= j < i ==> SpaceAt(s, j))
      && (forall j :: i + |r| <= j < |s| ==> SpaceAt(s, j))
  {
    var t := TrimStart(s);
    assert Strip(s) == TrimEnd(t);
    HeadOfTail(s, t, TrimEnd(t));
  }

  /** A head `r` of a tail `t` of `s` sits in `s` where `t` starts, and whitespace after `r` in `t` is whitespace in `s`. */
  lemma HeadOfTail(s: string, t: string, r: string)
    requires |t| <= |s| && t == s[|s| - |t|..] && |r| <= |t| && r == t[..|r|]
    requires forall j :: |r| <= j < |t| ==> SpaceAt(t, j)
    ensures forall j :: 0 <= j < |r| ==> r[j] == s[|s| - |t| + j]
    ensures forall j :: |s| - |t| + |r| <= j < |s| ==> SpaceAt(s, j)
  {
    var i := |s| - |t|;
    forall j | i + |r| <= j < |s| ensures SpaceAt(s, j) {
      assert SpaceAt(t, j - i) && t[j - i] == s[j];
    }
  }

  /** Python's `text.strip() == ""` holds exactly for blank text. */
  lemma StripEmptyIffBlank(s: string)
    ensures Strip(s) == "" <==> Blank(s)
  {
    var t := TrimStart(s);
    if t != "" {
      assert !IsSpace(t[0]);
    }
  }

  /** The text that gets drawn: the entry verbatim, or the timestamp when the entry is empty or whitespace only. */
  function DrawnText(entry: string, stamp: string): (text: string)
    ensures Blank(entry) ==> text == stamp
    ensures !Blank(entry) ==> text == entry
  {
    StripEmptyIffBlank(entry);
    if entry == "" || Strip(entry) == "" then stamp else entry
  }

  /** A wall-clock reading, as datetime.now() supplies it. */
  datatype Moment = Moment(year: int, month: int, day: int, hour: int, minute: int)

  /** Readings whose fields "%Y-%m-%d %H:%M" prints with fixed widths. */
  predicate Formattable(m: Moment) {
    && 1000 <= m.year <= 9999
    && 1 <= m.month <= 12
    && 1 <= m.day <= 31
    && 0 <= m.hour <= 23
    && 0 <= m.minute <= 59
  }

  predicate IsDigit(c: char) {
    '0' <= c <= '9'
  }

  predicate AllDigits(s: string) {
    forall i :: 0 <= i < |s| ==> IsDigit(s[i])
  }

  function Pow10(n: nat): nat {
    if n == 0 then 1 else 10 * Pow10(n - 1)
  }

  /** The last `width` decimal digits of `n`, zero-padded on the left. */
  function Decimal(n: nat, width: nat): (s: string)
    ensures |s| == width && AllDigits(s)
  {
    if width == 0 then ""
    else Decimal(n / 10, width - 1) + [('0' as int + n % 10) as char]
  }

  /** The number a string of decimal digits denotes. */
  function DecimalValue(s: string): nat
    requires AllDigits(s)
  {
    if s == "" then 0
    else 10 * DecimalValue(s[..|s| - 1]) + (s[|s| - 1] as int - '0' as int)
  }

  /** Reading back a zero-padded number gives the number, when it fits the width. */
  lemma {:induction false} DecimalRoundTrip(n: nat, width: nat)
    requires n < Pow10(width)
    ensures DecimalValue(Decimal(n, width)) == n
  {
    if width > 0 {
      var s := Decimal(n, width);
      assert s[..|s| - 1] == Decimal(n / 10, width - 1);
      DecimalRoundTrip(n / 10, width - 1);
    }
  }

  /** datetime.strftime("%Y-%m-%d %H:%M"). */
  function Stamp(m: Moment): (s: string)
    requires Formattable(m)
    ensures |s| == 16
    ensures s[4] == '-' && s[7] == '-' && s[10] == ' ' && s[13] == ':'
    ensures AllDigits(s[..4]) && AllDigits(s[5..7]) && AllDigits(s[8..10]) && AllDigits(s[11..13]) && AllDigits(s[14..])
  {
    var year, month, day := Decimal(m.year, 4), Decimal(m.month, 2), Decimal(m.day, 2);
    var hour, minute := Decimal(m.hour, 2), Decimal(m.minute, 2);
    var yearMonth := year + "-" + month;
    var date := yearMonth + "-" + day;
    var time := hour + ":" + minute;
    var s := date + " " + time;
    Joined(year, '-', month);
    Joined(yearMonth, '-', day);
    Joined(hour, ':', minute);
    Joined(date, ' ', time);
    assert s[..4] == date[..7][..4];
    assert s[5..7] == date[..7][5..];
    assert s[11..13] == time[..2];
    s
  }

  /** The two parts and the separator of `a + [sep] + b` sit where their lengths say. */
  lemma Joined(a: string, sep: char, b: string)
    ensures var s := a + [sep] + b;
      && s[..|a|] == a && s[|a|] == sep && s[|a| + 1..] == b
  {
  }

  /** Reads the fields back out of a "%Y-%m-%d %H:%M" string. */
  function ParseStamp(s: string): Moment
    requires |s| == 16
    requires AllDigits(s[..4]) && AllDigits(s[5..7]) && AllDigits(s[8..10]) && AllDigits(s[11..13]) && AllDigits(s[14..])
  {
    Moment(DecimalValue(s[..4]), DecimalValue(s[5..7]), DecimalValue(s[8..10]),
      DecimalValue(s[11..13]), DecimalValue(s[14..]))
  }

  /** The stamp is a faithful record of the reading: parsing it gives the reading back. */
  lemma StampRoundTrip(m: Moment)
    requires Formattable(m)
    ensures ParseStamp(Stamp(m)) == m
  {
    var s := Stamp(m);
    assert s[..4] == Decimal(m.year, 4);
    assert s[5..7] == Decimal(m.month, 2);
    assert s[8..10] == Decimal(m.day, 2);
    assert s[11..13] == Decimal(m.hour, 2);
    assert s[14..] == Decimal(m.minute, 2);
    assert Pow10(2) == 100 && Pow10(4) == 10000;
    DecimalRoundTrip(m.year, 4);
    DecimalRoundTrip(m.month, 2);
    DecimalRoundTrip(m.day, 2);
    DecimalRoundTrip(m.hour, 2);
    DecimalRoundTrip(m.minute, 2);
  }

  /** Whatever the entry holds, the drawn text is never blank once the fallback is a stamp. */
  lemma DrawnTextIsNeverBlank(entry: string, m: Moment)
    requires Formattable(m)
    ensures !Blank(DrawnText(entry, Stamp(m)))
  {
    var s := Stamp(m);
    assert !IsSpace(s[4]);
  }

  /** A text bounding box as the font reports it for drawing at (0, 0); its origin may be negative. */
  datatype BBox = BBox(left: int, top: int, right: int, bottom: int)

  predicate WellFormed(b: BBox) {
    b.left <= b.right && b.top <= b.bottom
  }

  /** The box the same glyphs cover when drawn at `at` instead of (0, 0). */
  function Translate(b: BBox, at: Point): BBox {
    BBox(b.left + at.x, b.top + at.y, b.right + at.x, b.bottom + at.y)
  }

  /** A box lies inside a layer of the given size. */
  predicate Within(b: BBox, s: Size) {
    0 <= b.left && b.right <= s.width && 0 <= b.top && b.bottom <= s.height
  }

  /** Offset of the drop shadow behind the text, in both axes. */
  const ShadowOffset: int := 2

  datatype Rgb = Rgb(red: int, green: int, blue: int)

  datatype Rgba = Rgba(red: int, green: int, blue: int, alpha: int)

  /** Colour used when the colour string cannot be parsed. */
  const White := Rgb(255, 255, 255)

  /** The transparent layer the text is drawn on, where shadow and glyphs are drawn, and in which colours. */
  datatype TextLayer = TextLayer(size: Size, shadowAt: Point, glyphAt: Point, shadowFill: Rgba, glyphFill: Rgba)

  /**
   * Lays the measured text out on its own layer. The glyphs start at the
   * layer's top-left corner, the shadow ends at its bottom-right corner, so
   * both fit and the layer has no slack, whatever the sign of the box origin.
   */
  function LayoutText(bbox: BBox, color: Option<Rgb>, alpha: int): (layer: TextLayer)
    requires WellFormed(bbox)
    ensures layer.size == Size(bbox.right - bbox.left + ShadowOffset, bbox.bottom - bbox.top + ShadowOffset)
    ensures Within(Translate(bbox, layer.glyphAt), layer.size)
    ensures Within(Translate(bbox, layer.shadowAt), layer.size)
    ensures Translate(bbox, layer.glyphAt).left == 0 && Translate(bbox, layer.glyphAt).top == 0
    ensures Translate(bbox, layer.shadowAt).right == layer.size.width
    ensures Translate(bbox, layer.shadowAt).bottom == layer.size.height
    ensures layer.shadowAt == Point(layer.glyphAt.x + ShadowOffset, layer.glyphAt.y + ShadowOffset)
    ensures layer.shadowFill == Rgba(0, 0, 0, if alpha < 255 then alpha else 255)
    ensures layer.glyphFill == Rgba(color.GetOr(White).red, color.GetOr(White).green, color.GetOr(White).blue, alpha)
  {
    var width := bbox.right - bbox.left;
    var height := bbox.bottom - bbox.top;
    var origin := Point(-bbox.left, -bbox.top);
    var rgb := color.GetOr(White);
    TextLayer(
      Size(width + ShadowOffset, height + ShadowOffset),
      Point(origin.x + ShadowOffset, origin.y + ShadowOffset),
      origin,
      Rgba(0, 0, 0, if 255 < alpha then 255 else alpha),
      Rgba(rgb.red, rgb.green, rgb.blue, alpha))
  }

  /**
   * What the text path needs besides the image: the entry text, the font as
   * a measuring function (None when measuring raises), the parsed colour
   * (None when the colour string does not parse) and the 0..255 alpha.
   */
  datatype TextSettings = TextSettings(entry: string, measure: string -> Option<BBox>, color: Option<Rgb>, alpha: int)

  /** One run of the text path: the text drawn, its layer, the layer's size after rotation, where it lands, and the result image. */
  datatype TextRender = TextRender(text: string, layer: TextLayer, placed: Size, at: Point, image: Raster)

  /**
   * apply_text_watermark on an image; None stands for an exception escaping it.
   * `turn` gives the size Pillow's expanding rotation produces for the layer.
   */
  function ApplyText(base: Raster, t: TextSettings, now: Moment, angle: int, turn: Size -> Size, position: string): (r: Option<TextRender>)
    requires Formattable(now)
    ensures r.Some? <==> t.measure(DrawnText(t.entry, Stamp(now))).Some? && WellFormed(t.measure(DrawnText(t.entry, Stamp(now))).value)
    ensures r.Some? ==> !Blank(r.value.text) && (!Blank(t.entry) ==> r.value.text == t.entry)
    ensures r.Some? ==> r.value.text == DrawnText(t.entry, Stamp(now))
    ensures r.Some? ==> r.value.layer == LayoutText(t.measure(r.value.text).value, t.color, t.alpha)
    ensures r.Some? ==> r.value.image == Raster(base.size, "RGBA")
    ensures r.Some? && angle == 0 ==> r.value.placed == r.value.layer.size
    ensures r.Some? && angle != 0 ==> r.value.placed == turn(r.value.layer.size)
    ensures r.Some? ==> Aligned(Column(position), r.value.at.x, base.size.width, r.value.placed.width)
    ensures r.Some? ==> Aligned(Row(position), r.value.at.y, base.size.height, r.value.placed.height)
  {
    var text := DrawnText(t.entry, Stamp(now));
    DrawnTextIsNeverBlank(t.entry, now);
    match t.measure(text)
    case None => None
    case Some(bbox) =>
      if !WellFormed(bbox) then None
      else
        var layer := LayoutText(bbox, t.color, t.alpha);
        var placed := if angle != 0 then turn(layer.size) else layer.size;
        Some(TextRender(text, layer, placed, Place(base.size, placed, position), Raster(base.size, "RGBA")))
  }
}
