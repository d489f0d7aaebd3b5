/** WatermarkApp.get_system_fonts: the font families offered in the font selector. */
module Fonts {
  import opened Common

  /** Families listed first when installed, in this order. */
  const CommonFonts: seq<string> :=
    ["Arial", "Calibri", "Microsoft YaHei", "SimHei", "SimSun", "Times New Roman", "Courier New"]

  /** The list offered when the installed families cannot be enumerated. */
  const FallbackFonts: seq<string> := ["Arial", "Calibri", "Microsoft YaHei", "SimHei", "SimSun"]

  /** At most this many other families follow the common ones. */
  const OtherLimit: nat := 20

  /** The elements of `xs` whose membership in `pool` is `inside`, in the order of `xs`. */
  function Filter(xs: seq<string>, pool: seq<string>, inside: bool): (r: seq<string>)
    ensures |r| <= |xs|
    ensures forall i :: 0 <= i < |r| ==> (r[i] in pool) == inside
    ensures forall x :: x in r <==> x in xs && (x in pool) == inside
    ensures |xs| == 1 ==> r == if (xs[0] in pool) == inside then xs else []
  {
    if |xs| == 0 then []
    else
      var n := |xs| - 1;
      assert xs == xs[..n] + [xs[n]];
      Filter(xs[..n], pool, inside) + (if (xs[n] in pool) == inside then [xs[n]] else [])
  }

  /** Filtering one more element adds it at the end exactly when it passes. */
  lemma FilterSnoc(xs: seq<string>, x: string, pool: seq<string>, inside: bool)
    ensures Filter(xs + [x], pool, inside) == Filter(xs, pool, inside) + if (x in pool) == inside then [x] else []
  {
    assert (xs + [x])[..|xs|] == xs;
  }

  /** Filtering a concatenation filters each part and keeps them in order. */
  lemma {:induction false} FilterAppend(a: seq<string>, b: seq<string>, pool: seq<string>, inside: bool)
    ensures Filter(a + b, pool, inside) == Filter(a, pool, inside) + Filter(b, pool, inside)
  {
    if |b| == 0 {
      assert a + b == a;
    } else {
      var n := |b| - 1;
      var front, last := b[..n], b[n];
      var kept := if (last in pool) == inside then [last] else [];
      var fa, ff := Filter(a, pool, inside), Filter(front, pool, inside);
      calc {
        Filter(a + b, pool, inside);
        { assert a + b == (a + front) + [last]; }
        Filter((a + front) + [last], pool, inside);
        { FilterSnoc(a + front, last, pool, inside); }
        Filter(a + front, pool, inside) + kept;
        { FilterAppend(a, front, pool, inside); }
        (fa + ff) + kept;
        fa + (ff + kept);
        { assert b == front + [last]; FilterSnoc(front, last, pool, inside); }
        fa + Filter(b, pool, inside);
      }
    }
  }

  /** The other families offered: the first OtherLimit of them, in order. */
  function Shown(others: seq<string>): (shown: seq<string>)
    ensures |shown| == if |others| <= OtherLimit then |others| else OtherLimit
    ensures shown == others[..|shown|]
    ensures forall i :: 0 <= i < |shown| ==> shown[i] == others[i]
  {
    if |others| <= OtherLimit then others else others[..OtherLimit]
  }

  /**
   * The offered list, given the installed families (None when asking for
   * them raised): the installed common families in their fixed order, then
   * the first twenty other installed families in the order reported.
   */
  function SystemFonts(families: Option<seq<string>>): (fonts: seq<string>)
    ensures families.None? ==> fonts == FallbackFonts
    ensures families.Some? ==> forall i :: 0 <= i < |fonts| ==> fonts[i] in families.value
    ensures families.Some? ==> forall f :: f in CommonFonts ==> (f in fonts <==> f in families.value)
    ensures families.Some? ==>
      var k := |Filter(CommonFonts, families.value, true)|;
      && k <= |fonts| <= k + OtherLimit
      && (forall i :: 0 <= i < k ==> fonts[i] in CommonFonts)
      && (forall i :: k <= i < |fonts| ==> fonts[i] !in CommonFonts)
    ensures families.Some? ==>
      var available := Filter(CommonFonts, families.value, true);
      var others := Filter(families.value, CommonFonts, false);
      var k := |available|;
      && |fonts| - k == (if |others| <= OtherLimit then |others| else OtherLimit)
      && fonts[..k] == available
      && fonts[k..] == others[..|fonts| - k]
  {
    match families
    case None => FallbackFonts
    case Some(installed) =>
      var available := Filter(CommonFonts, installed, true);
      var others := Filter(installed, CommonFonts, false);
      var shown := Shown(others);
      var fonts := available + shown;
      assert fonts[..|available|] == available && fonts[|available|..] == shown;
      assert forall i :: 0 <= i < |shown| ==> shown[i] in others;
      fonts
  }

  /** A family outside the common list is offered exactly when it is among the first twenty such families installed. */
  lemma OtherFontOffered(installed: seq<string>, f: string)
    requires f !in CommonFonts
    ensures var others := Filter(installed, CommonFonts, false);
      f in SystemFonts(Some(installed)) <==> f in others[..if |others| <= OtherLimit then |others| else OtherLimit]
  {
    var available := Filter(CommonFonts, installed, true);
    var others := Filter(installed, CommonFonts, false);
    var shown := Shown(others);
    assert SystemFonts(Some(installed)) == available + shown;
    assert f !in available;
    assert others[..|others|] == others;
  }

  /** When every common family and thirty others are installed, seven common and twenty others are offered. */
  lemma LongListIsCut(installed: seq<string>)
    requires forall f :: f in CommonFonts ==> f in installed
    requires |Filter(installed, CommonFonts, false)| == 30
    ensures |SystemFonts(Some(installed))| == |CommonFonts| + OtherLimit
  {
    AllPresent(CommonFonts, installed);
  }

  /** Filtering keeps every element when every element passes. */
  lemma {:induction false} AllPresent(xs: seq<string>, pool: seq<string>)
    requires forall x :: x in xs ==> x in pool
    ensures Filter(xs, pool, true) == xs
  {
    if |xs| > 0 {
      var n := |xs| - 1;
      var init := xs[..n];
      assert xs == init + [xs[n]];
      forall x | x in init ensures x in pool {
        assert x in xs;
      }
      AllPresent(init, pool);
      assert xs[n] in pool;
      assert Filter(xs, pool, true) == Filter(init, pool, true) + [xs[n]];
    }
  }
}
