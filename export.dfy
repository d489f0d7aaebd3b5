/**
 * WatermarkApp.export_images: every listed image is opened, watermarked,
 * named and saved in list order; an exception on one item is swallowed and
 * the loop goes on; the run counts the items that were saved.
 */
module Export {
  import opened Common
  import opened Geometry
  import Naming
  import opened TextWatermark
  import opened Watermark

  /**
   * What the outside world does with one item: the image Image.open returns
   * (None: it raised), the clock reading while it is rendered, and whether
   * the encoder and file system accept the save.
   */
  datatype Attempt = Attempt(loaded: Option<Raster>, now: Moment, saves: bool)

  /** Every clock reading can be printed by the timestamp format. */
  predicate Timely(attempts: seq<Attempt>) {
    forall i :: 0 <= i < |attempts| ==> Formattable(attempts[i].now)
  }

  /** The naming rule ("prefix", "suffix" or anything else) with its prefix and suffix texts. */
  datatype NameRule = NameRule(rule: string, prefix: string, tag: string)

  /** The export controls: the format ("JPEG", anything else means PNG), the JPEG quality, naming, and the output folder. */
  datatype Output = Output(format: string, quality: int, naming: NameRule, dir: string)

  /** A file written by the run: folder, name, encoder, JPEG quality (None for PNG) and the image as encoded. */
  datatype Written = Written(dir: string, name: string, format: string, quality: Option<int>, image: Raster)

  /** What happened to one item. */
  datatype ItemResult = Saved(file: Written) | OpenFailed | RenderFailed | SaveFailed

  /** The image handed to the encoder: JPEG cannot store alpha, so RGBA is converted to RGB first. */
  function Encodable(format: string, image: Raster): (e: Raster)
    ensures e.size == image.size
    ensures format == "JPEG" ==> e.mode != "RGBA"
    ensures format == "JPEG" && image.mode == "RGBA" ==> e == Raster(image.size, "RGB")
    ensures format != "JPEG" || image.mode != "RGBA" ==> e == image
  {
    if format == "JPEG" && image.mode == "RGBA" then Raster(image.size, "RGB") else image
  }

  /** The body of the loop for one path. */
  function ProcessItem(path: string, a: Attempt, s: Settings, out: Output): (r: ItemResult)
    requires Ready(s) && Formattable(a.now)
    ensures r == OpenFailed <==> a.loaded.None?
    ensures r == RenderFailed ==> s.kind == "text"
  {
    match a.loaded
    case None => OpenFailed
    case Some(original) =>
      match ApplyWatermark(s, original, a.now)
      case Raised => RenderFailed
      case Returned(watermarked) =>
        var name := Naming.OutputFilename(out.naming.rule, out.naming.prefix, out.naming.tag, Naming.BaseName(path));
        var file :=
          if out.format == "JPEG" then Written(out.dir, name, "JPEG", Some(out.quality), Encodable("JPEG", watermarked))
          else Written(out.dir, name, "PNG", None, watermarked);
        if a.saves then Saved(file) else SaveFailed
  }

  /**
   * An item is saved exactly when it opens, renders and the save succeeds;
   * the file goes to the output folder under the naming rule applied to the
   * path's name, at the image's size, as JPEG with the quality holding the watermarked
   * image converted to RGB when it is RGBA, or as PNG holding the watermarked image.
   */
  lemma ProcessItemSaves(path: string, a: Attempt, s: Settings, out: Output)
    requires Ready(s) && Formattable(a.now)
    ensures var r := ProcessItem(path, a, s, out);
      && (r.Saved? <==> a.loaded.Some? && ApplyWatermark(s, a.loaded.value, a.now).Returned? && a.saves)
      && (r.Saved? ==>
        && r.file.dir == out.dir
        && r.file.name == Naming.OutputFilename(out.naming.rule, out.naming.prefix, out.naming.tag, Naming.BaseName(path))
        && r.file.image.size == a.loaded.value.size
        && (out.format == "JPEG" ==> r.file.format == "JPEG" && r.file.quality == Some(out.quality)
                                     && r.file.image == Encodable("JPEG", ApplyWatermark(s, a.loaded.value, a.now).image)
                                     && r.file.image.mode != "RGBA")
        && (out.format != "JPEG" ==> r.file.format == "PNG" && r.file.quality == None
                                     && r.file.image == ApplyWatermark(s, a.loaded.value, a.now).image))
  {
  }

  /** The loop body as a value: one path processed with its attempt under the run's settings. */
  function Item(s: Settings, out: Output): (string, Attempt) --> ItemResult {
    (path: string, a: Attempt) requires Ready(s) && Formattable(a.now) => ProcessItem(path, a, s, out)
  }

  /** `item` applied to each path with its attempt, in list order. */
  function Outcomes(paths: seq<string>, attempts: seq<Attempt>, item: (string, Attempt) --> ItemResult): (results: seq<ItemResult>)
    requires |attempts| == |paths|
    requires forall i :: 0 <= i < |paths| ==> item.requires(paths[i], attempts[i])
    ensures |results| == |paths|
  {
    if |paths| == 0 then []
    else
      var n := |paths| - 1;
      Outcomes(paths[..n], attempts[..n], item) + [item(paths[n], attempts[n])]
  }

  /** Outcome k is `item` applied to path k and attempt k alone. */
  lemma {:induction false} OutcomeAt(paths: seq<string>, attempts: seq<Attempt>, item: (string, Attempt) --> ItemResult, k: nat)
    requires |attempts| == |paths| && k < |paths|
    requires forall i :: 0 <= i < |paths| ==> item.requires(paths[i], attempts[i])
    ensures Outcomes(paths, attempts, item)[k] == item(paths[k], attempts[k])
  {
    var n := |paths| - 1;
    if k < n {
      OutcomeAt(paths[..n], attempts[..n], item, k);
    }
  }

  /** The per-item results of a run, in list order. */
  function Results(paths: seq<string>, attempts: seq<Attempt>, s: Settings, out: Output): (results: seq<ItemResult>)
    requires |attempts| == |paths| && Timely(attempts) && Ready(s)
    ensures |results| == |paths|
  {
    Outcomes(paths, attempts, Item(s, out))
  }

  /** Item k's result depends on item k alone: nothing that happens to the others, failures included, changes it. */
  lemma ResultsAt(paths: seq<string>, attempts: seq<Attempt>, s: Settings, out: Output)
    requires |attempts| == |paths| && Timely(attempts) && Ready(s)
    ensures forall k :: 0 <= k < |paths| ==> Results(paths, attempts, s, out)[k] == ProcessItem(paths[k], attempts[k], s, out)
  {
    forall k | 0 <= k < |paths|
      ensures Results(paths, attempts, s, out)[k] == ProcessItem(paths[k], attempts[k], s, out)
    {
      OutcomeAt(paths, attempts, Item(s, out), k);
    }
  }

  /** A failing item leaves the results of every other item as they were. */
  lemma FailureIsIsolated(paths: seq<string>, attempts: seq<Attempt>, failed: Attempt, k: nat, s: Settings, out: Output)
    requires |attempts| == |paths| && Timely(attempts) && Ready(s)
    requires k < |paths| && Formattable(failed.now)
    ensures forall j :: 0 <= j < |paths| && j != k ==>
      Results(paths, attempts[k := failed], s, out)[j] == Results(paths, attempts, s, out)[j]
  {
    ResultsAt(paths, attempts, s, out);
    ResultsAt(paths, attempts[k := failed], s, out);
  }

  /**
   * Output names depend on a path's name alone: two saved items whose paths
   * share a name, in different folders, write the same file, and the later
   * save overwrites the earlier one although both are counted.
   */
  lemma SameNameSameFile(paths: seq<string>, attempts: seq<Attempt>, s: Settings, out: Output, j: nat, k: nat)
    requires |attempts| == |paths| && Timely(attempts) && Ready(s) && j < |paths| && k < |paths|
    requires Naming.BaseName(paths[j]) == Naming.BaseName(paths[k])
    requires Results(paths, attempts, s, out)[j].Saved? && Results(paths, attempts, s, out)[k].Saved?
    ensures var r := Results(paths, attempts, s, out);
      r[j].file.dir == r[k].file.dir && r[j].file.name == r[k].file.name
  {
    ResultsAt(paths, attempts, s, out);
    ProcessItemSaves(paths[j], attempts[j], s, out);
    ProcessItemSaves(paths[k], attempts[k], s, out);
  }

  /** The save records of a run, in list order. */
  function SavedFiles(results: seq<ItemResult>): (files: seq<Written>)
    ensures |files| <= |results|
  {
    if |results| == 0 then []
    else
      var n := |results| - 1;
      SavedFiles(results[..n]) + (if results[n].Saved? then [results[n].file] else [])
  }

  /** Every item saved exactly when as many files as items were written. */
  lemma {:induction false} AllSavedIffFullCount(results: seq<ItemResult>)
    ensures |SavedFiles(results)| == |results| <==> forall k :: 0 <= k < |results| ==> results[k].Saved?
  {
    if |results| > 0 {
      var n := |results| - 1;
      AllSavedIffFullCount(results[..n]);
      assert forall k :: 0 <= k < n ==> results[..n][k] == results[k];
    }
  }

  /** One failing item among n costs exactly one save: the other n - 1 items are still saved. */
  lemma {:induction false} OneFailureCostsOne(results: seq<ItemResult>, k: nat)
    requires k < |results| && !results[k].Saved?
    requires forall j :: 0 <= j < |results| && j != k ==> results[j].Saved?
    ensures |SavedFiles(results)| == |results| - 1
  {
    var n := |results| - 1;
    if k == n {
      AllSavedIffFullCount(results[..n]);
    } else {
      OneFailureCostsOne(results[..n], k);
    }
  }

  /** Under JPEG no written file is RGBA. */
  lemma {:induction false} JpegFilesHaveNoAlpha(paths: seq<string>, attempts: seq<Attempt>, s: Settings, out: Output)
    requires |attempts| == |paths| && Timely(attempts) && Ready(s) && out.format == "JPEG"
    ensures forall f :: f in SavedFiles(Results(paths, attempts, s, out)) ==> f.image.mode != "RGBA" && f.format == "JPEG"
  {
    if |paths| > 0 {
      var n := |paths| - 1;
      JpegFilesHaveNoAlpha(paths[..n], attempts[..n], s, out);
      ProcessItemSaves(paths[n], attempts[n], s, out);
    }
  }

  /** With an image watermark an item can only fail to open or to save; the watermarking step never sinks it. */
  lemma ImageWatermarkNeverFailsAnItem(paths: seq<string>, attempts: seq<Attempt>, s: Settings, out: Output)
    requires |attempts| == |paths| && Timely(attempts) && Ready(s) && s.kind != "text"
    ensures forall k :: 0 <= k < |paths| ==> Results(paths, attempts, s, out)[k] != RenderFailed
  {
    ResultsAt(paths, attempts, s, out);
  }

  /** The outcome the finished run reports, or the one error shown when the output folder cannot be made. */
  datatype Report = Finished(successCount: nat, totalCount: nat) | Aborted

  /**
   * export_images. `folderOk` says whether creating the output folder
   * succeeds; when it does not, the run stops before any item.
   */
  method ExportImages(paths: seq<string>, attempts: seq<Attempt>, s: Settings, out: Output, folderOk: bool)
    returns (report: Report, written: seq<Written>)
    requires |attempts| == |paths| && Timely(attempts) && Ready(s)
    ensures !folderOk ==> report == Aborted && written == []
    ensures folderOk ==> written == SavedFiles(Results(paths, attempts, s, out))
    ensures folderOk ==> report == Finished(|written|, |paths|) && |written| <= |paths|
  {
    if !folderOk {
      return Aborted, [];
    }
    var successCount := 0;
    var totalCount := |paths|;
    written := [];
    for i := 0 to |paths|
      invariant written == SavedFiles(Results(paths[..i], attempts[..i], s, out))
      invariant successCount == |written|
    {
      assert paths[..i + 1][..i] == paths[..i] && attempts[..i + 1][..i] == attempts[..i];
      var result := ProcessItem(paths[i], attempts[i], s, out);
      if result.Saved? {
        written := written + [result.file];
        successCount := successCount + 1;
      }
    }
    assert paths[..|paths|] == paths && attempts[..|paths|] == attempts;
    ResultsAt(paths, attempts, s, out);
    report := Finished(successCount, totalCount);
  }
}
