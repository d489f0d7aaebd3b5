/**
 * The state WatermarkApp keeps between events: the list of image paths,
 * the index of the image in the preview, the image last opened for the
 * preview, and the saved templates. Each method is one event handler with
 * its widget and dialog calls taken out; what a dialog returns, and whether
 * Image.open succeeds, come in as parameters.
 */
module App {
  import opened Common
  import Naming

  /** The control values save_template collects under a name. */
  datatype Template = Template(
    watermarkType: string, text: string, fontFamily: string, fontSize: int, color: string, opacity: int,
    imagePath: Option<string>, imageScale: real, imageOpacity: int, position: string, rotation: int)

  class WatermarkApp {
    /** Paths of the images to process, in the order they were added. */
    var images: seq<string>
    /** Index of the image in the preview; clear_images leaves it as it was. */
    var currentImageIndex: nat
    /** Path of the image last opened for the preview (original_image), if any. */
    var original: Option<string>
    /** Saved templates, by name. */
    var templates: map<string, Template>

    /** Whenever there are images, the index points at one of them. */
    ghost predicate Valid()
      reads this
    {
      images != [] ==> currentImageIndex < |images|
    }

    /** load_current_image gets past its guard. */
    predicate CanLoad()
      reads this
    {
      images != [] && currentImageIndex < |images|
    }

    /** The app starts with no images, index 0, and the templates read from disk (None when there were none to read). */
    constructor (stored: Option<map<string, Template>>)
      ensures Valid()
      ensures images == [] && currentImageIndex == 0 && original == None
      ensures templates == stored.GetOr(map[])
    {
      images := [];
      currentImageIndex := 0;
      original := None;
      templates := stored.GetOr(map[]);
    }

    /**
     * load_current_image: with no images or an index past the end it returns
     * at once; otherwise it opens the image at the index (`opens` says whether
     * Image.open succeeds; a failure is reported and changes nothing).
     */
    method LoadCurrentImage(opens: bool)
      modifies this`original
      ensures original == if CanLoad() && opens then Some(images[currentImageIndex]) else old(original)
    {
      if images == [] || currentImageIndex >= |images| {
        return;
      }
      if opens {
        original := Some(images[currentImageIndex]);
      }
    }

    /** select_images: the chosen files are appended; a list that was empty shows its first new image. */
    method SelectImages(files: seq<string>, opens: bool)
      modifies this
      ensures images == old(images) + files
      ensures templates == old(templates)
      ensures old(images) == [] && files != [] ==>
        currentImageIndex == 0 && original == if opens then Some(files[0]) else old(original)
      ensures old(images) != [] || files == [] ==>
        currentImageIndex == old(currentImageIndex) && original == old(original)
      ensures old(Valid()) ==> Valid()
    {
      if files != [] {
        var prevEmpty := images == [];
        images := images + files;
        if prevEmpty && images != [] {
          currentImageIndex := 0;
          LoadCurrentImage(opens);
        }
      }
    }

    /**
     * select_folder: of the files a recursive scan of the chosen folder
     * finds (none when the dialog is cancelled), those with an image
     * extension are appended in scan order.
     */
    method SelectFolder(found: seq<string>, opens: bool)
      modifies this
      ensures images == old(images) + Naming.ImagePaths(found)
      ensures templates == old(templates)
      ensures old(images) == [] && Naming.ImagePaths(found) != [] ==>
        currentImageIndex == 0 && original == if opens then Some(Naming.ImagePaths(found)[0]) else old(original)
      ensures old(images) != [] || Naming.ImagePaths(found) == [] ==>
        currentImageIndex == old(currentImageIndex) && original == old(original)
      ensures old(Valid()) ==> Valid()
    {
      var prevEmpty := images == [];
      AppendImageFiles(found);
      if prevEmpty && images != [] {
        currentImageIndex := 0;
        LoadCurrentImage(opens);
      }
    }

    /** The scanning loop of select_folder: each found file with an image extension is appended to the list. */
    method AppendImageFiles(found: seq<string>)
      modifies this`images
      ensures images == old(images) + Naming.ImagePaths(found)
    {
      for i := 0 to |found|
        invariant images == old(images) + Naming.ImagePaths(found[..i])
      {
        var added := if Naming.IsImagePath(found[i]) then [found[i]] else [];
        Naming.ImagePathsStep(found, i);
        assert old(images) + (Naming.ImagePaths(found[..i]) + added) == images + added;
        images := images + added;
      }
      assert found[..|found|] == found;
    }

    /** clear_images: the list is emptied; the index and the preview image stay as they were. */
    method ClearImages()
      modifies this`images
      ensures images == []
      ensures !CanLoad()
      ensures Valid()
    {
      images := [];
    }

    /** on_image_select: the first selected row becomes the current image. */
    method OnImageSelect(selection: seq<nat>, opens: bool)
      modifies this
      ensures images == old(images) && templates == old(templates)
      ensures selection != [] ==>
        && currentImageIndex == selection[0]
        && original == if selection[0] < |images| && opens then Some(images[selection[0]]) else old(original)
      ensures selection == [] ==> currentImageIndex == old(currentImageIndex) && original == old(original)
      ensures old(Valid()) && (selection != [] ==> selection[0] < |images|) ==> Valid()
    {
      if selection != [] {
        currentImageIndex := selection[0];
        LoadCurrentImage(opens);
      }
    }

    /** prev_image: steps back unless the first image is current. */
    method PrevImage(opens: bool)
      modifies this
      ensures images == old(images) && templates == old(templates)
      ensures currentImageIndex == if images != [] && old(currentImageIndex) > 0 then old(currentImageIndex) - 1 else old(currentImageIndex)
      ensures original ==
        if images != [] && old(currentImageIndex) > 0 && CanLoad() && opens then Some(images[currentImageIndex]) else old(original)
      ensures old(Valid()) ==> Valid()
    {
      if images != [] && currentImageIndex > 0 {
        currentImageIndex := currentImageIndex - 1;
        LoadCurrentImage(opens);
      }
    }

    /** next_image: steps forward unless the last image is current, so an index in range stays in range. */
    method NextImage(opens: bool)
      modifies this
      ensures images == old(images) && templates == old(templates)
      ensures currentImageIndex == if old(currentImageIndex) < |images| - 1 then old(currentImageIndex) + 1 else old(currentImageIndex)
      ensures old(currentImageIndex) < |images| ==> currentImageIndex < |images|
      ensures original ==
        if old(currentImageIndex) < |images| - 1 && opens then Some(images[currentImageIndex]) else old(original)
      ensures old(Valid()) ==> Valid()
    {
      if images != [] && currentImageIndex < |images| - 1 {
        currentImageIndex := currentImageIndex + 1;
        LoadCurrentImage(opens);
      }
    }

    /** save_template: stores the template under the name typed in the dialog (None when cancelled); an empty name does nothing. */
    method SaveTemplate(name: Option<string>, template: Template)
      modifies this`templates
      ensures name.Some? && name.value != "" ==> templates == old(templates)[name.value := template]
      ensures name.None? || name.value == "" ==> templates == old(templates)
    {
      if name.None? || name.value == "" {
        return;
      }
      templates := templates[name.value := template];
    }

    /**
     * delete_template: removes the selected template once the user confirms.
     * `raised` reports the KeyError `del` raises for a name that is not stored.
     */
    method DeleteTemplate(selection: Option<string>, confirmed: bool) returns (raised: bool)
      modifies this`templates
      ensures raised <==> selection.Some? && confirmed && selection.value !in old(templates)
      ensures selection.Some? && confirmed && !raised ==> templates == old(templates) - {selection.value}
      ensures selection.None? || !confirmed || raised ==> templates == old(templates)
    {
      raised := false;
      if selection.None? {
        return;
      }
      if confirmed {
        if selection.value !in templates {
          raised := true;
          return;
        }
        templates := templates - {selection.value};
      }
    }
  }

  /** Saving a template under a new name and deleting it again gives back the templates there were. */
  lemma SaveThenDeleteRestores(templates: map<string, Template>, name: string, template: Template)
    requires name !in templates
    ensures templates[name := template] - {name} == templates
  {
  }

  /** Saving under a name already taken replaces that template and keeps the rest. */
  lemma SaveReplaces(templates: map<string, Template>, name: string, template: Template)
    ensures templates[name := template].Keys == templates.Keys + {name}
    ensures templates[name := template][name] == template
    ensures forall n :: n in templates && n != name ==> templates[name := template][n] == templates[n]
  {
  }
}
