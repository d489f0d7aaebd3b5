/**
 * File names: how pathlib splits a name into stem and suffix, how the
 * output file is named (WatermarkApp.generate_output_filename), and which
 * files a folder scan accepts as images (WatermarkApp.select_folder).
 */
module Naming {

  /** `s` does not hold `c` at `j`. */
  predicate Absent(s: string, c: char, j: int)
    requires 0 <= j < |s|
  {
    s[j] != c
  }

  /** Index of the last occurrence of `c` among the first `n` characters of `s`, or -1. */
  function LastIndexBefore(s: string, c: char, n: nat): (i: int)
    requires n <= |s|
    ensures -1 <= i < n
    ensures 0 <= i ==> s[i] == c
    ensures forall j :: i < j < n ==> Absent(s, c, j)
  {
    if n == 0 then -1
    else if s[n - 1] == c then n - 1
    else LastIndexBefore(s, c, n - 1)
  }

  /** Index of the last occurrence of `c` in `s`, or -1 (Python's str.rfind). */
  function LastIndexOf(s: string, c: char): int {
    LastIndexBefore(s, c, |s|)
  }

  /** The three properties of LastIndexOf leave no choice. */
  lemma LastIndexOfIsUnique(s: string, c: char, i: int)
    requires -1 <= i < |s|
    requires 0 <= i ==> s[i] == c
    requires forall j :: i < j < |s| ==> s[j] != c
    ensures i == LastIndexOf(s, c)
  {
    var k := LastIndexOf(s, c);
    assert 0 <= i && k < i ==> Absent(s, c, i);
  }

  /** The last occurrence in a concatenation lies in the right part when there is one there. */
  lemma LastIndexOfAppend(a: string, b: string, c: char)
    ensures LastIndexOf(a + b, c)
         == if 0 <= LastIndexOf(b, c) then |a| + LastIndexOf(b, c) else LastIndexOf(a, c)
  {
    var s := a + b;
    var kb := LastIndexOf(b, c);
    var i := if 0 <= kb then |a| + kb else LastIndexOf(a, c);
    forall j | i < j < |s| ensures s[j] != c {
      if j >= |a| {
        assert s[j] == b[j - |a|] && Absent(b, c, j - |a|);
      } else {
        assert s[j] == a[j] && Absent(a, c, j);
      }
    }
    LastIndexOfIsUnique(s, c, i);
  }

  /**
   * Where pathlib cuts a final path component into stem and suffix: at its
   * last dot when that dot is neither the first nor the last character,
   * otherwise at the end (no suffix). This is the rule of Python 3.13 and
   * earlier; a trailing dot cannot occur in a Windows file name.
   */
  function SplitPoint(name: string): (k: nat)
    ensures k <= |name|
  {
    var i := LastIndexOf(name, '.');
    if 0 < i < |name| - 1 then i else |name|
  }

  /** PurePath.stem of a final component. */
  function Stem(name: string): string {
    name[..SplitPoint(name)]
  }

  /** PurePath.suffix of a final component. */
  function Suffix(name: string): string {
    name[SplitPoint(name)..]
  }

  /** A suffix is empty, or a dot followed by at least one character and no further dot; only an empty one leaves the stem the whole name, and a non-empty one leaves a non-empty stem. */
  lemma SuffixShape(name: string)
    ensures var x := Suffix(name);
      && (x == "" || (|x| >= 2 && x[0] == '.' && forall j :: 1 <= j < |x| ==> x[j] != '.'))
      && (x != "" ==> Stem(name) != "")
      && (x == "" ==> Stem(name) == name)
  {
    var k := SplitPoint(name);
    forall j | k + 1 <= j < |name| ensures name[j] != '.' {
      assert Absent(name, '.', j);
    }
  }

  /** Stem and suffix together give back the name. */
  lemma StemSuffixRoundTrip(name: string)
    ensures Stem(name) + Suffix(name) == name
  {
  }

  /** Gluing text in front of a name, or between its stem and a non-empty suffix, keeps that suffix. */
  lemma SuffixSurvivesInsertion(pre: string, stem: string, mid: string, suffix: string)
    requires suffix != "" && Suffix(stem + suffix) == suffix
    requires pre + stem != ""
    ensures Suffix(pre + stem + mid + suffix) == suffix
  {
    var name := stem + suffix;
    var out := pre + stem + mid + suffix;
    LastIndexOfAppend(stem, suffix, '.');
    var ks := LastIndexOf(suffix, '.');
    SuffixShape(name);
    assert ks == 0 by { LastIndexOfIsUnique(suffix, '.', 0); }
    LastIndexOfAppend(pre + stem + mid, suffix, '.');
    assert LastIndexOf(out, '.') == |pre + stem + mid|;
  }

  /** Characters that separate path components (Windows paths accept both slashes). */
  predicate IsSeparator(c: char) {
    c == '/' || c == '\\'
  }

  /** `path` holds no separator at `j`. */
  predicate NotSeparatorAt(path: string, j: int)
    requires 0 <= j < |path|
  {
    !IsSeparator(path[j])
  }

  /** Index just past the last separator among the first `n` characters of `path`, or 0 when there is none. */
  function NameStart(path: string, n: nat): (k: nat)
    requires n <= |path|
    ensures k <= n
    ensures forall j :: k <= j < n ==> NotSeparatorAt(path, j)
    ensures 0 < k ==> IsSeparator(path[k - 1])
  {
    if n == 0 then 0
    else if IsSeparator(path[n - 1]) then n
    else NameStart(path, n - 1)
  }

  /** PurePath.name: what follows the last separator. */
  function BaseName(path: string): string {
    path[NameStart(path, |path|)..]
  }

  /** The name is the longest tail of the path that holds no separator. */
  lemma BaseNameIsLongestTail(path: string)
    ensures var name := BaseName(path);
      && |name| <= |path| && name == path[|path| - |name|..]
      && (forall j :: 0 <= j < |name| ==> !IsSeparator(name[j]))
      && (|name| < |path| ==> IsSeparator(path[|path| - |name| - 1]))
  {
    var k := NameStart(path, |path|);
    forall j | k <= j < |path| ensures !IsSeparator(path[j]) {
      assert NotSeparatorAt(path, j);
    }
  }

  /** The three properties of BaseName leave no choice. */
  lemma BaseNameIsUnique(path: string, name: string)
    requires |name| <= |path| && name == path[|path| - |name|..]
    requires forall j :: 0 <= j < |name| ==> !IsSeparator(name[j])
    requires |name| < |path| ==> IsSeparator(path[|path| - |name| - 1])
    ensures name == BaseName(path)
  {
    var k, m := NameStart(path, |path|), |path| - |name|;
    forall t | m <= t < |path| ensures !IsSeparator(path[t]) {
      assert path[t] == name[t - m];
    }
    if 0 < m {
      assert k <= m - 1 ==> NotSeparatorAt(path, m - 1);
    }
    assert k == m;
  }

  /**
   * Output file name under a naming rule: "prefix" puts `prefix` before the
   * stem, "suffix" puts `tag` between stem and extension, anything else keeps
   * the name.
   */
  function OutputFilename(rule: string, prefix: string, tag: string, name: string): (r: string)
    ensures rule == "prefix" ==> r == prefix + name
    ensures rule == "suffix" ==>
      && |r| == |name| + |tag|
      && r[..|Stem(name)|] + r[|Stem(name)| + |tag|..] == name
      && r[|Stem(name)|..|Stem(name)| + |tag|] == tag
    ensures rule != "prefix" && rule != "suffix" ==> r == name
    ensures |Suffix(name)| <= |r| && r[|r| - |Suffix(name)|..] == Suffix(name)
  {
    var stem, suffix := Stem(name), Suffix(name);
    StemSuffixRoundTrip(name);
    if rule == "prefix" then
      assert prefix + stem + suffix == prefix + (stem + suffix);
      prefix + stem + suffix
    else if rule == "suffix" then
      var r := stem + tag + suffix;
      assert r[..|stem|] == stem && r[|stem| + |tag|..] == suffix;
      r
    else stem + suffix
  }

  /** Whatever the rule, an output name keeps the input's extension in pathlib's own sense. */
  lemma OutputKeepsExtension(rule: string, prefix: string, tag: string, name: string)
    requires Suffix(name) != ""
    ensures Suffix(OutputFilename(rule, prefix, tag, name)) == Suffix(name)
  {
    var out := OutputFilename(rule, prefix, tag, name);
    if rule == "prefix" {
      PrefixKeepsExtension(prefix, name);
    } else if rule == "suffix" {
      var stem, suffix := Stem(name), Suffix(name);
      StemSuffixRoundTrip(name);
      assert out == "" + stem + tag + suffix;
      SuffixSurvivesInsertion("", stem, tag, suffix);
    }
  }

  lemma PrefixKeepsExtension(prefix: string, name: string)
    requires Suffix(name) != ""
    ensures Suffix(prefix + name) == Suffix(name)
  {
    var stem, suffix := Stem(name), Suffix(name);
    StemSuffixRoundTrip(name);
    SuffixSurvivesInsertion(prefix, stem, "", suffix);
    assert prefix + name == prefix + stem + "" + suffix;
  }

  /** Without an extension a suffix tag that holds a dot gives the output one: "README" tagged "_v1.0" ends in ".0". */
  lemma TagCanCreateExtension()
    ensures Suffix("README") == ""
    ensures Suffix(OutputFilename("suffix", "", "_v1.0", "README")) == ".0"
  {
    assert LastIndexOf("README", '.') == -1 by { LastIndexOfIsUnique("README", '.', -1); }
    var out := OutputFilename("suffix", "", "_v1.0", "README");
    assert out == "README_v1.0";
    assert LastIndexOf(out, '.') == 9 by { LastIndexOfIsUnique(out, '.', 9); }
  }

  /** ASCII lower-casing; no other character lowers to one of the letters the extension set uses. */
  function LowerChar(c: char): char {
    if 'A' <= c <= 'Z' then (c as int + 32) as char else c
  }

  function Lower(s: string): string {
    seq(|s|, i requires 0 <= i < |s| => LowerChar(s[i]))
  }

  /** Extensions the folder scan accepts, compared after lower-casing. */
  const ImageExtensions: seq<string> := [".jpg", ".jpeg", ".png", ".bmp", ".tiff", ".webp"]

  /** `x` is one of `xs`, tested one entry at a time. */
  predicate Listed(x: string, xs: seq<string>)
  {
    xs != [] && (xs[0] == x || Listed(x, xs[1..]))
  }

  /** select_folder's test for one file found under the chosen folder. */
  predicate IsImagePath(path: string) {
    Listed(Lower(Suffix(BaseName(path))), ImageExtensions)
  }

  /** Testing one entry at a time is membership. */
  lemma {:induction false} ListedIsMembership(x: string, xs: seq<string>)
    ensures Listed(x, xs) <==> x in xs
  {
    if xs != [] {
      assert xs == [xs[0]] + xs[1..];
      ListedIsMembership(x, xs[1..]);
    }
  }

  /** A path is an image path exactly when its name's lower-cased suffix is one of the listed extensions. */
  lemma ImageExtensionTest(path: string)
    ensures IsImagePath(path) <==> Lower(Suffix(BaseName(path))) in ImageExtensions
  {
    ListedIsMembership(Lower(Suffix(BaseName(path))), ImageExtensions);
  }

  /** The files of a folder scan that are kept, in scan order. */
  function ImagePaths(paths: seq<string>): (kept: seq<string>)
    ensures |kept| <= |paths|
    ensures forall i :: 0 <= i < |kept| ==> IsImagePath(kept[i])
  {
    if |paths| == 0 then []
    else ImagePaths(paths[..|paths| - 1]) + (if IsImagePath(paths[|paths| - 1]) then [paths[|paths| - 1]] else [])
  }

  /** Scanning one more file appends it when it is an image file. */
  lemma ImagePathsStep(paths: seq<string>, i: nat)
    requires i < |paths|
    ensures ImagePaths(paths[..i + 1]) == ImagePaths(paths[..i]) + (if IsImagePath(paths[i]) then [paths[i]] else [])
  {
    assert paths[..i + 1][..i] == paths[..i];
  }

  /** A scanned file is kept exactly when it is an image file. */
  lemma {:induction false} ImagePathsKeepExactlyImages(paths: seq<string>, p: string)
    ensures p in ImagePaths(paths) <==> p in paths && IsImagePath(p)
  {
    if |paths| > 0 {
      var init, last := paths[..|paths| - 1], paths[|paths| - 1];
      assert paths == init + [last];
      ImagePathsKeepExactlyImages(init, p);
    }
  }

  /** Upper-case extensions are accepted. */
  lemma UpperCaseExtensionIsImage()
    ensures IsImagePath("C:/photos/IMG_01.JPG")
  {
    var p := "C:/photos/IMG_01.JPG";
    BaseNameIsUnique(p, "IMG_01.JPG");
    LastIndexOfIsUnique("IMG_01.JPG", '.', 6);
    assert Suffix("IMG_01.JPG") == ".JPG";
    assert Lower(".JPG") == ".jpg";
  }

  /** A dot-file such as ".png" has no suffix for pathlib, so the scan skips it. */
  lemma DotFileIsNotImage()
    ensures !IsImagePath("C:/photos/.png")
  {
    var p := "C:/photos/.png";
    BaseNameIsUnique(p, ".png");
    LastIndexOfIsUnique(".png", '.', 0);
    assert Suffix(".png") == "";
    assert Lower("") == "";
  }

  /** Only the four-letter ".tiff" is in the set; ".tif" files are skipped. */
  lemma ShortTiffIsNotImage()
    ensures !IsImagePath("C:/photos/scan.tif")
  {
    var p := "C:/photos/scan.tif";
    BaseNameIsUnique(p, "scan.tif");
    LastIndexOfIsUnique("scan.tif", '.', 4);
    assert Suffix("scan.tif") == ".tif";
    assert Lower(".tif") == ".tif";
    assert ".tif" != ".tiff" && ".tif" != ".jpg" && ".tif" != ".png";
  }

  /** A name made of a non-empty stem and a well-formed extension gets the tag between the two. */
  lemma SuffixRuleInsertsTag(stem: string, ext: string, prefix: string, tag: string)
    requires stem != ""
    requires |ext| >= 2 && ext[0] == '.' && forall j :: 1 <= j < |ext| ==> ext[j] != '.'
    ensures Suffix(stem + ext) == ext && Stem(stem + ext) == stem
    ensures OutputFilename("suffix", prefix, tag, stem + ext) == stem + tag + ext
  {
    var name := stem + ext;
    LastIndexOfIsUnique(ext, '.', 0);
    LastIndexOfAppend(stem, ext, '.');
    assert SplitPoint(name) == |stem|;
    assert name[..|stem|] == stem && name[|stem|..] == ext;
  }

}
