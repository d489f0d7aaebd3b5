# Photo watermark tool: verified model of its placement, naming, layering and export rules

The repository is a single Tkinter/Pillow application (`watermark_gui.py`,
class `WatermarkApp`). It stamps a text or a picture watermark on a batch of
photographs and saves them under a chosen naming scheme, as JPEG or PNG.
This project models, in Dafny, the rules inside that file that decide what
the output looks like and where it goes:

- where the watermark lands on the nine-way anchor grid, with a 20-pixel margin (`Geometry`);
- how pathlib splits a file name into stem and suffix (the rule of Python 3.13 and earlier, where a name ending in a lone dot has no suffix; Windows file names cannot end in a dot, so later changes to that case do not arise), how the output file is named, and which files a folder scan keeps (`Naming`);
- the text path: the timestamp fallback for blank text, the `%Y-%m-%d %H:%M` stamp, and the layer that holds the shadow and the glyphs (`TextWatermark`);
- the image path: the user opacity folded into the picture's own alpha, and the early return when no picture is set (`ImageWatermark`);
- the choice between the two paths (`Watermark`);
- the batch export loop, which swallows per-item errors and counts the saves (`Export`);
- the font list offered in the selector (`Fonts`);
- the state the event handlers update: the image list, the current index, the image open for the preview, and the template dictionary (`App`, a class).

Pure expression code is modelled as functions and lemmas. The export loop
and the folder scan are methods with loops. The handlers that update the
app's fields are methods of the class `App.WatermarkApp`.

Pillow, Tk, the clock and the file system are not modelled. What they
return comes in as parameters:

- the decoded image (`Attempt.loaded`);
- the font's bounding box for a string (`TextSettings.measure`);
- the parsed colour;
- the size after an expanding rotation (`turn`);
- the resized watermark picture (`ImageSettings.picture`);
- whether a save succeeds;
- what a dialog returned;
- the clock reading (`Moment`).

## Behaviour worth knowing

- Centred offsets use Python's `//`, which rounds toward minus infinity. A mark 3 pixels wider than the image starts at x = -2 (`Geometry.CentringFloors`).
- The alpha rescale is `int(p * opacity / 255)`, the floor of the exact quotient. Alpha 128 at opacity 127 gives 63 (`ImageWatermark.ScaleAlphaExample`).
- The image path catches its own exceptions and returns the image it was given. So in a batch, a failure inside it does not fail the item: the photo goes on to be saved without a watermark, and it is counted as a success when that save succeeds. Under JPEG only an RGBA image is converted (watermark_gui.py:852), so an image returned in another mode the JPEG encoder refuses, such as `P` or `LA`, fails at the save and is not counted; in the model that is a save that does not succeed. Only the text path can fail an item at the watermark step (`Export.ImageWatermarkNeverFailsAnItem`).
- With no watermark picture configured, the image comes back in the mode it was opened in.
- Output names depend only on a path's final name (watermark_gui.py:846-848). Two saved inputs with the same name in different folders, which the recursive folder scan readily produces, write the same output file: the later overwrites the earlier, and both are counted (`Export.SameNameSameFile`).
- The loop records no per-item results. It only counts successes, and it prints the error of a failed item. `Export.Results` is the model's list of per-item outcomes. The counter and the written files are tied to it.

## Model

| member | source | states |
|---|---|---|
| Geometry.Place | watermark_gui.py:678-703 | The offset obeys the grid. A left or top anchor sits at the 20-pixel margin. A right or bottom anchor ends exactly 20 pixels before the far edge. A centred anchor leaves equal gaps, with any odd pixel on the right or bottom side. Names outside the left/centre columns (and the top/middle rows) read as right (bottom). |
| Geometry.AlignedIsUnique | watermark_gui.py:678-703 | The grid conditions determine the offset uniquely, so Place's contract fixes its result. |
| Geometry.UnknownAnchorIsBottomRight | watermark_gui.py:702-703 | Any name outside the nine anchors gets the bottom-right placement (W-w-20, H-h-20). |
| Geometry.PlacementIsNotClamped | watermark_gui.py:689-703 | There is no clamping. A right-anchored mark starts left of the image exactly when it is wider than the image minus 20. A centred mark does so exactly when it is wider than the image. The same holds vertically. |
| Geometry.CentringFloors | watermark_gui.py:689 | Centring floors: a mark 3 px wider than a 100 px image sits at x = -2. |
| Naming.LastIndexBefore | watermark_gui.py:873-874 | The rfind that pathlib's stem/suffix use: -1 or an index holding the character, with no later occurrence. |
| Naming.SuffixShape | watermark_gui.py:873-874 | `Suffix` (pathlib's suffix) is empty, or a dot followed by at least one character and no further dot. A non-empty suffix leaves a non-empty stem. An empty suffix leaves the whole name as the stem. |
| Naming.StemSuffixRoundTrip | watermark_gui.py:873-874 | `Stem` + `Suffix` gives back the file name, so the two split it at one point. |
| Naming.BaseNameIsLongestTail | watermark_gui.py:846 | `BaseName`, a path's name, is its longest separator-free tail: the text after the last '/' or '\\'. |
| Naming.BaseNameIsUnique | watermark_gui.py:846 | Those properties determine the name uniquely. |
| Naming.OutputFilename | watermark_gui.py:871-881 | "prefix" gives prefix + name. "suffix" inserts the tag between stem and extension, and removing it gives the name back. Any other rule gives the name unchanged. Every result ends with the original suffix. |
| Naming.OutputKeepsExtension | watermark_gui.py:871-881 | If the input has an extension, the output name has the same extension in pathlib's sense, under every rule. |
| Naming.TagCanCreateExtension | watermark_gui.py:878-879 | Without an extension, a tag containing a dot creates one: "README" tagged "_v1.0" gets the suffix ".0". |
| Naming.SuffixRuleInsertsTag | watermark_gui.py:876-879 | For a non-empty stem followed by a dot-led extension with no further dot, pathlib splits the name into exactly that stem and that suffix, and the "suffix" rule gives stem + tag + extension ("photo.jpg" with "_watermarked" gives "photo_watermarked.jpg"). |
| Naming.ListedIsMembership | watermark_gui.py:468-472 | Comparing against the extensions one at a time is membership in the list. |
| Naming.ImageExtensionTest | watermark_gui.py:472 | `IsImagePath` holds exactly when the lower-cased suffix of the path's name is one of the six listed extensions. |
| Naming.ImagePaths | watermark_gui.py:471-473 | The folder scan keeps no more files than it finds, and each kept file has an image extension. |
| Naming.ImagePathsKeepExactlyImages | watermark_gui.py:468-473 | A scanned file is kept if and only if its lower-cased suffix is one of .jpg .jpeg .png .bmp .tiff .webp. |
| Naming.UpperCaseExtensionIsImage | watermark_gui.py:472 | The comparison ignores case: "IMG_01.JPG" is kept. |
| Naming.DotFileIsNotImage | watermark_gui.py:472 | A file named ".png" has no suffix for pathlib and is skipped. |
| Naming.ShortTiffIsNotImage | watermark_gui.py:468-472 | ".tif" is not in the set, so "scan.tif" is skipped. |
| TextWatermark.TrimStart | watermark_gui.py:588 | lstrip leaves a tail of the text, and what it drops is whitespace only. The tail is empty exactly when the text is blank. Otherwise it starts with a non-space. |
| TextWatermark.TrimEnd | watermark_gui.py:588 | rstrip leaves a head of the text, and what it drops is whitespace only. The head is empty exactly when the text is blank. Otherwise it ends with a non-space. |
| TextWatermark.Strip | watermark_gui.py:588 | strip leaves no whitespace at either end of what it returns, and never lengthens the text. |
| TextWatermark.StripRemovesOnlyWhitespace | watermark_gui.py:588 | strip returns the characters of the text from where lstrip's tail starts, in order, with only whitespace before and after them, so it removes surrounding whitespace and nothing else. |
| TextWatermark.StripEmptyIffBlank | watermark_gui.py:588 | `text.strip() == ""` holds exactly when every character is Python whitespace. |
| TextWatermark.DrawnText | watermark_gui.py:587-589 | Empty or whitespace-only entries are replaced by the timestamp. Any other entry is drawn verbatim, untrimmed. |
| TextWatermark.Stamp | watermark_gui.py:589 | The stamp is 16 characters: digits with '-' at 4 and 7, ' ' at 10 and ':' at 13. |
| TextWatermark.DecimalRoundTrip | watermark_gui.py:589 | A zero-padded field reads back as the number it prints. |
| TextWatermark.StampRoundTrip | watermark_gui.py:589 | Parsing the stamp gives back year, month, day, hour and minute. |
| TextWatermark.DrawnTextIsNeverBlank | watermark_gui.py:587-589 | With the fallback, the drawn text is never blank. |
| TextWatermark.LayoutText | watermark_gui.py:592-619 | The layer is (bw+2)x(bh+2). Drawing at (-bbox[0], -bbox[1]) puts the glyph box flush with the top-left corner. The shadow is the glyph box shifted by (2,2) and flush with the bottom-right corner. Both lie inside the layer whatever the sign of the box origin. The shadow is black with alpha min(255, a). The glyphs use the parsed colour, or white when parsing fails, with alpha a. |
| TextWatermark.ApplyText | watermark_gui.py:575-633 | It fails exactly when measuring fails. On success: the text is the entry or, for a blank entry, the stamp, so it is non-blank and equals a non-blank entry; the layer is the layout of that text's measured box in the chosen colour and alpha; the result is RGBA at the image size; an unrotated layer is placed at its own size and a rotated one at the size the expanding rotation gives it; and the placement obeys the grid for the final layer size. |
| ImageWatermark.ScaleAlpha | watermark_gui.py:654 | The result is the floor of p*opacity/255. It never exceeds p or the opacity. |
| ImageWatermark.ScaleAlphaMonotone | watermark_gui.py:654 | A higher source alpha never gives a lower result. |
| ImageWatermark.ScaleAlphaEnds | watermark_gui.py:652-654 | Alpha 0 and opacity 0 give 0. Opacity 255 is the identity, so skipping the rescale at 255 changes nothing. |
| ImageWatermark.ScaleAlphaExample | watermark_gui.py:654 | Opacities multiply: alpha 128 at opacity 127 gives 63. |
| ImageWatermark.FoldOpacity | watermark_gui.py:651-655 | The channel keeps its length. It is unchanged when opacity >= 255. Otherwise each value is ScaleAlpha of the source value, so no value grows, none exceeds the opacity, transparent stays transparent, and the order between pixels is kept. |
| ImageWatermark.ApplyImage | watermark_gui.py:635-676 | With no picture set, or when loading fails, the image is returned untouched. Otherwise the result is RGBA at the image size, carrying the picture with its folded alpha, placed on the grid by its final size: its own size unrotated, the expanding rotation's size when rotated. |
| Watermark.ApplyWatermark | watermark_gui.py:568-573 | Only the text type can raise. Every returned image has the input's size. Text output is RGBA. With no picture, the image type returns the input as it was. |
| Export.Encodable | watermark_gui.py:851-856 | Under JPEG an RGBA image becomes an RGB image of the same size, so the encoded image is never RGBA. Otherwise, or for non-RGBA images, it is unchanged. |
| Export.ProcessItem | watermark_gui.py:836-861 | An item is an open failure exactly when opening raised. Only the text path can cause a render failure. |
| Export.ProcessItemSaves | watermark_gui.py:838-858 | An item is saved exactly when it opens, watermarks and saves. A saved file goes to the output folder under the naming rule applied to the path's name, at the image's size. JPEG saves carry the quality and the watermarked image as `Encodable` converts it, so never RGBA. PNG saves carry the watermarked image. |
| Export.Outcomes | watermark_gui.py:838-861 | Running the loop body over the list yields one outcome per path. |
| Export.OutcomeAt | watermark_gui.py:838-861 | Outcome k is the loop body applied to path k and its attempt alone. |
| Export.Results | watermark_gui.py:838-861 | The loop, with `ProcessItem` as its body, yields one outcome per path. |
| Export.ResultsAt | watermark_gui.py:836-861 | There is one result per path, and result k depends only on item k. |
| Export.FailureIsIsolated | watermark_gui.py:858-861 | Turning one item into a failure leaves every other item's result unchanged. |
| Export.SavedFiles | watermark_gui.py:854-858 | The save records are those of the saved outcomes, in list order, so there are never more saves than outcomes (the contract states the bound; `Export.AllSavedIffFullCount` and `Export.OneFailureCostsOne` state how many). Two saves can write the same file (`Export.SameNameSameFile`). |
| Export.SameNameSameFile | watermark_gui.py:846-856 | Two saved items whose paths have the same name go to the same folder under the same output name, so the later save overwrites the earlier. |
| Export.AllSavedIffFullCount | watermark_gui.py:834-858 | The count equals the number of items exactly when every item is saved. |
| Export.OneFailureCostsOne | watermark_gui.py:858-861 | With n items and exactly one failure, n-1 saves succeed. |
| Export.JpegFilesHaveNoAlpha | watermark_gui.py:851-854 | Under JPEG every written file is JPEG and no written image is RGBA. |
| Export.ImageWatermarkNeverFailsAnItem | watermark_gui.py:635-676 | With an image watermark, no item fails at the watermark step. |
| Export.ExportImages | watermark_gui.py:828-869 | If the folder cannot be created, the run aborts and writes nothing. Otherwise it saves, in list order, exactly the saved items' files. It reports success_count equal to the number of saves, which is at most total_count = len(paths). |
| Fonts.Filter | watermark_gui.py:429-430 | A comprehension keeps exactly the elements whose membership in the pool matches. A one-element list is kept or dropped whole. |
| Fonts.FilterSnoc | watermark_gui.py:429-430 | One more element at the end of the input adds that element at the end of the output exactly when it passes. |
| Fonts.FilterAppend | watermark_gui.py:429-430 | Filtering a concatenation gives the filtered parts concatenated, so the kept elements stay in input order. |
| Fonts.SystemFonts | watermark_gui.py:422-432 | If listing families raises, the result is the five-name fallback. Otherwise every offered font is installed, and a common font is offered exactly when installed. The result is the installed common fonts in the fixed common order (`Filter(CommonFonts, installed, true)`), followed by the first min(n, 20) of the n non-common installed families, in the order reported and with repeats kept (`Filter(installed, CommonFonts, false)`). |
| Fonts.OtherFontOffered | watermark_gui.py:430 | A font outside the common list is offered exactly when it is among the first 20 such installed fonts. |
| Fonts.LongListIsCut | watermark_gui.py:428-430 | With all 7 common fonts and 30 others installed, exactly 27 fonts are offered. |
| App.WatermarkApp.constructor | watermark_gui.py:20-42 | The app starts with no images, index 0, no open image, and the templates read at start (none if there were none). |
| App.WatermarkApp.LoadCurrentImage | watermark_gui.py:513-529 | With no images or the index past the end, it returns at once. Otherwise the image at the index becomes the open image if it opens. |
| App.WatermarkApp.SelectImages | watermark_gui.py:434-461 | The files are appended. If the list was empty and now is not, the index becomes 0 and the first new file is loaded. Otherwise the index and open image stay. The index stays in range. |
| App.WatermarkApp.SelectFolder | watermark_gui.py:463-483 | Exactly the scanned files with image extensions are appended, in scan order. The loading rule is as for SelectImages. |
| App.WatermarkApp.AppendImageFiles | watermark_gui.py:471-473 | After the scan, the list is the old list followed by exactly the image files found, in scan order. |
| App.WatermarkApp.ClearImages | watermark_gui.py:485-490 | The list is empty afterwards, so a later load returns at once. The index and open image are untouched. |
| App.WatermarkApp.OnImageSelect | watermark_gui.py:506-511 | The first selected row becomes the index and is loaded. An empty selection changes nothing. |
| App.WatermarkApp.PrevImage | watermark_gui.py:705-711 | The index decreases only when images exist and it is > 0. It stays in range. The open image becomes the new current image when the index moved, is in range and the file opens; otherwise it stays. |
| App.WatermarkApp.NextImage | watermark_gui.py:713-719 | The index increases only when it is < len-1. An index in range stays in range. The open image becomes the new current image when the index moved and the file opens; otherwise it stays. |
| App.WatermarkApp.SaveTemplate | watermark_gui.py:888-912 | A non-empty name stores the template under it. A cancelled or empty name changes nothing. |
| App.WatermarkApp.DeleteTemplate | watermark_gui.py:948-961 | A confirmed deletion removes the name. It raises KeyError exactly when the name is absent, and then nothing changes. No selection or no confirmation changes nothing. |
| App.SaveThenDeleteRestores | watermark_gui.py:888-961 | Saving under a new name and then deleting it restores the dictionary. |
| App.SaveReplaces | watermark_gui.py:909 | Saving under an existing name replaces that entry and keeps all others. |

## Left out

- Tk widgets, event bindings, dialogs, message boxes, the preview canvas, `ImageTk` and the progress bar: the model gets what a dialog returns as a parameter. `update_image_list` and `update_template_list` only redraw widgets.
- The export thread and its `root.after` hand-offs: export is modelled as a sequential loop. Concurrent changes to `images` during a run are not modelled.
- `start_export`: the default `./output` folder and its creation are not modelled. Folder creation inside the run is the `folderOk` parameter.
- Pillow internals are not modelled: glyph measurement (`textbbox`), expanding bicubic rotation (its size is the `turn` parameter), LANCZOS resizing, paste clipping and masking, `alpha_composite` pixel arithmetic, `ImageColor.getrgb` parsing (only its failure, which falls back to white, is modelled), and JPEG/PNG encoding (whether a save succeeds is a parameter).
- Floating point: `int(opacity * 2.55)` becomes a 0..255 alpha parameter. In doubles, opacity 100 gives 254, so the rescale always runs. `int(w * scale)` and `resize_for_preview` are not modelled.
- Font lookup (`_resolve_font_path`, `_get_truetype_font`), the recursive directory walk (the walk's file list is a parameter) and `mkdir` are not modelled.
- The JSON loading and saving of templates are not modelled: the constructor takes the loaded dictionary. `load_template` copies values into widgets, and when the template has an image path it also sets `watermark_config['image_path']` (watermark_gui.py:939-940). That entry is what the image path tests at watermark_gui.py:637; `ImageSettings.path` stands for it, so the model takes its value however it was set.
- Export.ExportImages: the export thread reads the naming, format, quality and watermark controls afresh for each item, so a change made during a run affects the items after it. The model fixes `Settings` and `Output` for the whole run.
- Export.ProcessItem: Pillow opens files lazily, so a truncated file can pass `Image.open` and fail later, at the RGBA conversion on watermark_gui.py:578 or at save. The model counts every decoding failure as `loaded == None`, an open failure; in the source such an item is likewise skipped and not counted.
- `datetime.now()` is not modelled: the clock reading is the `Moment` parameter. A text render reads the clock afresh for each item.
- `on_*_change`, `choose_color`, `select_output_folder`, `export_finished`, `main` are not modelled: they only copy widget values or show messages. `select_watermark_image` also sets `watermark_config['image_path']` (watermark_gui.py:771), which `ImageSettings.path` stands for.
- TextWatermark.Stamp: years before 1000 are not modelled, because `%Y` does not print them with four digits on every platform. The clock always supplies a current year.
- TextWatermark.ApplyText: a bounding box with right < left (or bottom < top) is treated as a failure. Pillow's measurement never returns one.
- Naming.BaseName: both '/' and '\\' are separators, as in Windows paths. Drive-relative names such as `C:x.jpg` and trailing separators, which pathlib treats specially, are not modelled. An absolute path such as `C:/photos/a.jpg` splits the same way with or without its drive, so it is covered. The paths come from file dialogs and directory walks, which give absolute paths without trailing separators.
- Naming.Lower: only ASCII letters are lowered. No non-ASCII character lowers to a string that could complete one of the six ASCII extensions, so the test gives the same answer as Python's `str.lower`.
- ImageWatermark.ApplyImage: an exception raised after the image has been converted to RGBA (in paste or composite) returns the converted image. The model has no such failure, since paste and composite are not modelled.
- App.WatermarkApp.OnImageSelect: it keeps the index in range only for rows inside the list. The listbox mirrors the list, so that is every row Tk can report.
