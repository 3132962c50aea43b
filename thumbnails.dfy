/**
 * The `post_save` handler of main/signals.py that gives an uploaded photo a thumbnail: the
 * guard, where the thumbnail file goes and what name the photo then stores, and the
 * handler's own save of the photo, which runs the handler once more.
 */
module Thumbnails {
  import opened Wrappers
  import opened PosixPath

  const PhotoType := "photo"
  const ThumbDirName := "thumbs"
  const ThumbSuffix := "_thumb.jpg"
  /** `img.thumbnail((300, 300))`: the box the thumbnail is shrunk into. */
  const ThumbBox := 300
  /** `img.save(..., "JPEG", quality=80)` */
  const JpegQuality := 80

  /** `instance.media_type == "photo" and not instance.thumbnail and instance.file` (a file field is falsy when its name is empty). */
  predicate ShouldGenerate(mediaType: string, thumbnail: string, file: string) {
    mediaType == PhotoType && thumbnail == [] && file != []
  }

  /** `instance.file.path`: the storage joins the file's name onto MEDIA_ROOT. */
  function FilePath(mediaRoot: string, name: string): string {
    Join(mediaRoot, name)
  }

  /** `os.path.join(os.path.dirname(original_path), "thumbs")` */
  function ThumbDir(original: string): string {
    Join(Dirname(original), ThumbDirName)
  }

  function ThumbFilename(original: string): string {
    SplitExt(Basename(original)).0 + ThumbSuffix
  }

  /** `os.path.join(thumb_dir, thumb_filename)` */
  function ThumbPath(original: string): string {
    Join(ThumbDir(original), ThumbFilename(original))
  }

  /**
   * The name the photo stores: the thumbnail's path relative to MEDIA_ROOT.  `relpath`
   * fails only on an empty path, which the thumbnail path never is, so a name is always set.
   */
  function ThumbnailName(mediaRoot: string, name: string): (r: Option<string>)
    ensures r.Some? && r.value != []
  {
    var original := FilePath(mediaRoot, name);
    ThumbPathNotEmpty(original);
    RelPath(ThumbPath(original), mediaRoot)
  }

  /** The image work handed to PIL: shrink `source` into the box and write it as a JPEG at `target`. */
  datatype ImageJob = ImageJob(source: string, target: string, box: int, quality: int)

  /** The job the handler hands to PIL for the file stored under `name`. */
  function ThumbJob(mediaRoot: string, name: string): ImageJob {
    var original := FilePath(mediaRoot, name);
    ImageJob(original, ThumbPath(original), ThumbBox, JpegQuality)
  }

  datatype SaveKind = AllFields | OnlyThumbnail

  // ---------------------------------------------------------------------------------------
  // Properties of the derivation

  /**
   * The thumbnail's file name is a single name, made of the original base name up to its
   * extension followed by "_thumb.jpg".
   */
  lemma {:induction false} ThumbFilenameShape(original: string)
    ensures IsName(ThumbFilename(original))
    ensures var stem := SplitExt(Basename(original)).0;
      ThumbFilename(original) == stem + ThumbSuffix && Basename(original) == stem + SplitExt(Basename(original)).1
  {
    var base := Basename(original);
    BasenameHasNoSeparator(original);
    SplitExtParts(base);
    var stem := SplitExt(base).0;
    assert stem == base[..|stem|];
    forall k | 0 <= k < |ThumbFilename(original)|
      ensures ThumbFilename(original)[k] != Sep
    {
      if k < |stem| {
        assert ThumbFilename(original)[k] == base[k];
        assert base[k] in base;
      }
    }
  }

  /** The thumbnail sits in the "thumbs" directory beside the original file, under the derived file name. */
  lemma {:induction false} ThumbPathLocation(original: string)
    ensures Dirname(ThumbPath(original)) == ThumbDir(original)
    ensures Basename(ThumbPath(original)) == ThumbFilename(original)
    ensures Dirname(ThumbDir(original)) == Dirname(original)
    ensures Basename(ThumbDir(original)) == ThumbDirName
  {
    DirnameShape(original);
    ThumbDirNameIsName();
    JoinThenSplit(Dirname(original), ThumbDirName);
    ThumbFilenameShape(original);
    var dir := ThumbDir(original);
    assert dir != [] && dir[|dir| - 1] != Sep by {
      BasenameEndsPath(dir);
    }
    JoinThenSplit(dir, ThumbFilename(original));
  }

  lemma {:induction false} ThumbPathNotEmpty(original: string)
    ensures ThumbPath(original) != []
  {
    ThumbPathLocation(original);
    ThumbFilenameShape(original);
    assert Basename(ThumbPath(original)) != [];
  }

  /** A path ends with its base name. */
  lemma {:induction false} BasenameEndsPath(p: string)
    requires Basename(p) != []
    ensures p != [] && p[|p| - 1] == Basename(p)[|Basename(p)| - 1]
  {
  }

  /** The base name of a name joined onto a directory is the name's own base name. */
  lemma {:induction false} BasenameOfJoin(root: string, name: string)
    requires name != [] && name[0] != Sep
    ensures Basename(Join(root, name)) == Basename(name)
  {
    var prefix := if root == [] || root[|root| - 1] == Sep then root else root + [Sep];
    assert Join(root, name) == prefix + name;
    BasenameAfterDirectory(prefix, name);
  }

  lemma {:induction false} BasenameAfterDirectory(prefix: string, name: string)
    requires prefix == [] || prefix[|prefix| - 1] == Sep
    ensures Basename(prefix + name) == Basename(name)
  {
    var p := prefix + name;
    var i := RFind(name, Sep);
    RFindConcat(prefix, name, Sep);
    if i < 0 {
      assert RFind(p, Sep) + 1 == |prefix| by {
        if prefix != [] {
          RFindUnique(prefix, Sep, |prefix| - 1);
        }
      }
      assert p[|prefix|..] == name;
    } else {
      assert p[|prefix| + i + 1..] == name[i + 1..];
    }
  }

  lemma {:induction false} DropLast(s: seq<string>, t: seq<string>, x: string, y: string)
    requires s + [x] == t + [y]
    ensures s == t && x == y
  {
    assert s == (s + [x])[..|s|];
    assert t == (t + [y])[..|t|];
  }

  /**
   * For a file stored under MEDIA_ROOT by a relative name, the photo's thumbnail name is the
   * name's directory, then "thumbs", then the derived file name: `media/2024/05/a.jpg`
   * becomes `media/2024/05/thumbs/a_thumb.jpg`, whatever MEDIA_ROOT is.
   */
  lemma {:induction false} ThumbnailNameUnderMediaRoot(mediaRoot: string, name: string)
    requires name != [] && name[0] != Sep && Basename(name) != []
    ensures ThumbnailName(mediaRoot, name) ==
      Some(JoinAll(Components(Dirname(name)) + [ThumbDirName, ThumbFilename(name)]))
  {
    var p := FilePath(mediaRoot, name);
    var dirParts := Components(Dirname(name));
    var file := ThumbFilename(name);
    assert Basename(p) == Basename(name) by {
      BasenameOfJoin(mediaRoot, name);
    }
    assert ThumbFilename(p) == file;
    assert Components(Dirname(p)) == Components(mediaRoot) + dirParts by {
      ComponentsJoin(mediaRoot, name);
      ComponentsOfDirname(name);
      ComponentsOfDirname(p);
      assert Flush(Basename(name)) == [Basename(name)];
      assert (Components(mediaRoot) + dirParts) + [Basename(name)] == Components(Dirname(p)) + [Basename(p)];
      DropLast(Components(mediaRoot) + dirParts, Components(Dirname(p)), Basename(name), Basename(p));
    }
    assert Components(ThumbPath(p)) == Components(mediaRoot) + (dirParts + [ThumbDirName, file]) by {
      ComponentsOfThumbPath(p);
      assert Components(Dirname(p)) + [ThumbDirName, file] == Components(mediaRoot) + (dirParts + [ThumbDirName, file]);
    }
    RelPathBelow(ThumbPath(p), mediaRoot, dirParts + [ThumbDirName, file]);
  }

  lemma {:induction false} ThumbDirNameIsName()
    ensures IsName(ThumbDirName)
  {
  }

  /** The thumbnail path's components are the original's directory's, then "thumbs", then the thumbnail's file name. */
  lemma {:induction false} ComponentsOfThumbPath(original: string)
    ensures Components(ThumbPath(original)) == Components(Dirname(original)) + [ThumbDirName, ThumbFilename(original)]
  {
    ThumbDirNameIsName();
    ThumbFilenameShape(original);
    ComponentsOfTwoJoins(Dirname(original), ThumbDirName, ThumbFilename(original));
  }

  lemma {:induction false} ComponentsOfTwoJoins(d: string, x: string, y: string)
    requires IsName(x) && IsName(y)
    ensures Components(Join(Join(d, x), y)) == Components(d) + [x, y]
  {
    assert x[0] != Sep by { assert x[0] in x; }
    assert y[0] != Sep by { assert y[0] in y; }
    ComponentsOfName(x);
    ComponentsOfName(y);
    ComponentsJoin(d, x);
    ComponentsJoin(Join(d, x), y);
  }

  /** Once the thumbnail name is stored, the guard fails, so the handler's own save generates nothing more. */
  lemma {:induction false} GuardClosesAfterGeneration(mediaType: string, mediaRoot: string, file: string)
    ensures ThumbnailName(mediaRoot, file).Some?
    ensures !ShouldGenerate(mediaType, ThumbnailName(mediaRoot, file).value, file)
  {
  }

  // ---------------------------------------------------------------------------------------
  // The handler

  /** A photo instance, with the effects of the handler recorded: directories made, images written, saves issued. */
  class Photo {
    const mediaRoot: string
    const mediaType: string
    /** The name of the uploaded file ("" when there is none). */
    const file: string
    /** The name of the thumbnail ("" when there is none). */
    var thumbnail: string
    var dirsMade: set<string>
    var imagesWritten: seq<ImageJob>
    var saves: seq<SaveKind>

    constructor (mediaRoot: string, mediaType: string, file: string)
      ensures this.mediaRoot == mediaRoot && this.mediaType == mediaType && this.file == file
      ensures thumbnail == [] && dirsMade == {} && imagesWritten == [] && saves == []
    {
      this.mediaRoot := mediaRoot;
      this.mediaType := mediaType;
      this.file := file;
      thumbnail := [];
      dirsMade := {};
      imagesWritten := [];
      saves := [];
    }

    predicate WillGenerate()
      reads this
    {
      ShouldGenerate(mediaType, thumbnail, file)
    }

    /**
     * `instance.save(...)` followed by the `post_save` signal; `imageOpens` says whether PIL
     * can open and write the image (any exception it raises is caught by the handler).
     */
    method Save(kind: SaveKind, imageOpens: bool)
      modifies this
      decreases if thumbnail == [] then 1 else 0, 1
      ensures var generated := old(WillGenerate()) && imageOpens;
        && saves == old(saves) + [kind] + (if generated then [OnlyThumbnail] else [])
        && imagesWritten == old(imagesWritten) + (if generated then [ThumbJob(mediaRoot, file)] else [])
        && thumbnail == (if generated then ThumbnailName(mediaRoot, file).value else old(thumbnail))
      ensures dirsMade == old(dirsMade) + (if old(WillGenerate()) then {ThumbDir(FilePath(mediaRoot, file))} else {})
      ensures |imagesWritten| <= |old(imagesWritten)| + 1
      ensures old(thumbnail) != [] ==> imagesWritten == old(imagesWritten)
    {
      saves := saves + [kind];
      GenerateThumbnail(imageOpens);
    }

    /** `generate_thumbnail(sender=Photo, instance=this, ...)` */
    method GenerateThumbnail(imageOpens: bool)
      modifies this
      decreases if thumbnail == [] then 1 else 0, 0
      ensures var generated := old(WillGenerate()) && imageOpens;
        && saves == old(saves) + (if generated then [OnlyThumbnail] else [])
        && imagesWritten == old(imagesWritten) + (if generated then [ThumbJob(mediaRoot, file)] else [])
        && thumbnail == (if generated then ThumbnailName(mediaRoot, file).value else old(thumbnail))
      ensures dirsMade == old(dirsMade) + (if old(WillGenerate()) then {ThumbDir(FilePath(mediaRoot, file))} else {})
    {
      if mediaType == PhotoType && thumbnail == [] && file != [] {
        var originalPath := FilePath(mediaRoot, file);
        var thumbDir := ThumbDir(originalPath);
        dirsMade := dirsMade + {thumbDir};                      // os.makedirs(thumb_dir, exist_ok=True)
        var thumbFilename := ThumbFilename(originalPath);
        var thumbPath := Join(thumbDir, thumbFilename);
        if imageOpens {
          var job := ImageJob(originalPath, thumbPath, ThumbBox, JpegQuality);
          imagesWritten := imagesWritten + [job];
          var relative := RelPath(thumbPath, mediaRoot);
          assert relative == ThumbnailName(mediaRoot, file);
          match relative
          case None =>                                          // ValueError, caught
          case Some(name) =>
            thumbnail := name;
            Save(OnlyThumbnail, imageOpens);                    // runs this handler again
        }
      }
    }
  }

  /** Uploading a photo saves it once and, if the image opens, once more with its thumbnail; saving it again writes no second thumbnail. */
  method UploadAndResave(photo: Photo, imageOpens: bool)
    requires photo.mediaType == PhotoType && photo.file != [] && photo.thumbnail == []
    modifies photo
    ensures imageOpens ==> photo.saves == old(photo.saves) + [AllFields, OnlyThumbnail, AllFields]
    ensures imageOpens ==> |photo.imagesWritten| == |old(photo.imagesWritten)| + 1
    ensures !imageOpens ==> photo.thumbnail == [] && photo.imagesWritten == old(photo.imagesWritten)
  {
    photo.Save(AllFields, imageOpens);
    if imageOpens {
      assert photo.thumbnail != [];
    }
    photo.Save(AllFields, imageOpens);
  }
}
