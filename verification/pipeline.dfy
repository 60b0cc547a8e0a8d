/**
 * Properties that span the stages: the upload key the web tier builds is
 * the key the watcher parses and the gallery names; the image id the
 * upload form confirms is not always the one the watcher stores; the
 * variant URLs the converter records lead the delete handler back to
 * exactly the objects the converter wrote.
 */
module Pipeline {
  import opened Wrappers
  import opened Text
  import opened Records
  import opened Stores
  import UriDecoding
  import UploadWatcher
  import ImageConverter
  import RemovalHandler
  import ServerActions
  import Gallery
  import UploadForm

  // ---------------------------------------------------------------------
  // Upload key -> watcher item -> gallery name
  // ---------------------------------------------------------------------

  /**
   * The key the web tier hands out, once the object store has form-encoded
   * it into the event, decodes back to itself, and the watcher files the
   * upload under the user it names with the image id taken from the
   * stamped file name.
   */
  lemma WatcherItemOfUploadKey(userId: string, iso: string, fileName: string)
    requires '/' !in userId && '/' !in iso
    ensures var key := ServerActions.FileKey(userId, iso, fileName);
      var id := UploadWatcher.ImageIdOf(ServerActions.Stamp(iso) + "_" + ServerActions.UploadName(fileName));
      UriDecoding.DecodeKey(UriDecoding.FormEncode(key)) == Some(key) &&
      UploadWatcher.ItemForKey(key) == Some(Item(CompositeKey(userId, id), userId, id, key, []))
  {
    ServerActions.StampKeepsAbsent(iso, '/');
    WatcherItemOfKey(userId, ServerActions.Stamp(iso), ServerActions.UploadName(fileName));
  }

  lemma WatcherItemOfKey(userId: string, stamp: string, name: string)
    requires '/' !in userId && '/' !in stamp && '/' !in name
    ensures var key := "instantuploads/" + userId + "/" + stamp + "_" + name;
      var id := UploadWatcher.ImageIdOf(stamp + "_" + name);
      UriDecoding.DecodeKey(UriDecoding.FormEncode(key)) == Some(key) &&
      UploadWatcher.ItemForKey(key) == Some(Item(CompositeKey(userId, id), userId, id, key, []))
  {
    var key := "instantuploads/" + userId + "/" + stamp + "_" + name;
    UriDecoding.DecodeKeyOfFormEncode(key);
    assert '/' !in stamp + "_" + name;
    assert key == "instantuploads" + "/" + userId + "/" + (stamp + "_" + name) + "";
    UploadWatcher.ItemForKeyOfPath("instantuploads", userId, stamp + "_" + name, "");
  }

  /**
   * The watcher's id of a stamped name keeps the stamp and cuts the name
   * at its last dot, when it has one.
   */
  lemma StampedImageId(stamp: string, name: string)
    requires '.' !in stamp
    ensures var d := LastIndexOf(name, '.');
      UploadWatcher.ImageIdOf(stamp + "_" + name) == stamp + "_" + (if d < 0 then name else name[..d])
  {
    var p := stamp + "_";
    assert '.' !in p;
    LastIndexOfAfter(p, name, '.');
    var d := LastIndexOf(name, '.');
    if d >= 0 {
      assert (p + name)[..|p| + d] == p + name[..d];
    }
    assert stamp + "_" + name == p + name;
  }

  /**
   * The gallery shows a stamped upload under its name without the last
   * extension; only a name whose one dot comes first (such as `.png`)
   * leaves nothing after the stamp, and then the gallery falls back to the
   * whole id, which is the stamp and its underscore.
   */
  lemma GalleryNameOfStampedId(stamp: string, name: string)
    requires '.' !in stamp && '_' !in stamp && name != ""
    ensures var id := UploadWatcher.ImageIdOf(stamp + "_" + name);
      var d := LastIndexOf(name, '.');
      (d != 0 ==> Gallery.ImageName(id) == UploadWatcher.ImageIdOf(name)) &&
      (d == 0 ==> Gallery.ImageName(id) == stamp + "_")
  {
    StampedImageId(stamp, name);
    var d := LastIndexOf(name, '.');
    var rest := if d < 0 then name else name[..d];
    if d != 0 {
      Gallery.NameAfterPrefix(stamp, rest);
    } else {
      var s := stamp + "_";
      assert s + [] == s;
      assert s[|stamp|] == '_' && s[..|stamp|] == stamp;
    }
  }

  /**
   * End to end: the gallery names an upload after the sanitised file name
   * without its last extension, for every file name whose sanitised form
   * does not start with its only dot.
   */
  lemma GalleryNameOfUpload(userId: string, iso: string, fileName: string)
    requires '/' !in userId && '/' !in iso && '_' !in iso
    ensures var item := UploadWatcher.ItemForKey(ServerActions.FileKey(userId, iso, fileName));
      var name := ServerActions.UploadName(fileName);
      item.Some? &&
      (LastIndexOf(name, '.') != 0 ==> Gallery.ImageName(item.value.imageId) == UploadWatcher.ImageIdOf(name)) &&
      (LastIndexOf(name, '.') == 0 ==> Gallery.ImageName(item.value.imageId) == ServerActions.Stamp(iso) + "_")
  {
    WatcherItemOfUploadKey(userId, iso, fileName);
    ServerActions.StampKeepsAbsent(iso, '_');
    GalleryNameOfStampedId(ServerActions.Stamp(iso), ServerActions.UploadName(fileName));
  }

  // ---------------------------------------------------------------------
  // The form's image id against the watcher's
  // ---------------------------------------------------------------------

  /** The form reads the stamped name off the key and cuts it at its first dot. */
  lemma FormIdOfKey(userId: string, stamp: string, name: string)
    requires '/' !in userId && '/' !in stamp && '/' !in name
    ensures var key := "instantuploads/" + userId + "/" + stamp + "_" + name;
      var seg := stamp + "_" + name;
      var i := IndexOf(seg, '.');
      UploadForm.FormImageId(key) == if i < 0 then seg else seg[..i]
  {
    var key := "instantuploads/" + userId + "/" + stamp + "_" + name;
    ServerActions.KeySegments(userId, stamp, name);
    assert UploadForm.LastPiece(key, '/') == stamp + "_" + name;
  }

  /**
   * Cutting a stamped name at its first dot and at its last dot (the
   * watcher's rule) agree exactly when the name has at most one dot.
   */
  lemma FirstAndLastCut(stamp: string, name: string)
    requires '.' !in stamp
    ensures var seg := stamp + "_" + name;
      var i := IndexOf(seg, '.');
      (if i < 0 then seg else seg[..i]) == UploadWatcher.ImageIdOf(seg) <==> !Twice(name, '.')
  {
    var p := stamp + "_";
    var seg := stamp + "_" + name;
    assert seg == p + name;
    IndexOfAfter(p, name, '.');
    StampedImageId(stamp, name);
    FirstIsLast(name, '.');
    var i := IndexOf(name, '.');
    if i >= 0 {
      assert seg[..|p| + i] == p + name[..i];
    }
  }

  /**
   * The form cuts the stamped name at its first dot, the watcher at its
   * last: the two ids agree exactly when the name has at most one dot.
   */
  lemma FormAndWatcherIds(userId: string, stamp: string, name: string)
    requires '/' !in userId && '/' !in stamp && '/' !in name && '.' !in stamp
    ensures var key := "instantuploads/" + userId + "/" + stamp + "_" + name;
      UploadForm.FormImageId(key) == UploadWatcher.ImageIdOf(stamp + "_" + name) <==> !Twice(name, '.')
  {
    FormIdOfKey(userId, stamp, name);
    FirstAndLastCut(stamp, name);
  }

  /** The same for the key the web tier builds from a file name. */
  lemma FormAndWatcherIdsOfUpload(userId: string, iso: string, fileName: string)
    requires '/' !in userId && '/' !in iso
    ensures var name := ServerActions.UploadName(fileName);
      var key := ServerActions.FileKey(userId, iso, fileName);
      UploadWatcher.ItemForKey(key).Some? &&
      (UploadForm.FormImageId(key) == UploadWatcher.ItemForKey(key).value.imageId <==> !Twice(name, '.'))
  {
    ServerActions.StampKeepsAbsent(iso, '/');
    WatcherItemOfUploadKey(userId, iso, fileName);
    FormAndWatcherIds(userId, ServerActions.Stamp(iso), ServerActions.UploadName(fileName));
  }

  /** `a.b.png` is one such name: the form confirms `<stamp>_a`, the watcher stores `<stamp>_a.b`. */
  lemma TwoDotsSplitTheIds(userId: string, iso: string)
    requires '/' !in userId && '/' !in iso
    ensures var key := ServerActions.FileKey(userId, iso, "a.b.png");
      UploadWatcher.ItemForKey(key).Some? &&
      UploadForm.FormImageId(key) != UploadWatcher.ItemForKey(key).value.imageId
  {
    var name := "a.b.png";
    assert ServerActions.Clean(name) by {
      assert forall k :: 0 <= k < |name| ==> ServerActions.NameChar(name[k]);
      assert ServerActions.NoDoubleUnderscore(name);
    }
    ServerActions.SanitiseClean(name);
    assert name[1] == '.' && name[3] == '.';
    FormAndWatcherIdsOfUpload(userId, iso, name);
  }

  // ---------------------------------------------------------------------
  // Converter -> delete handler
  // ---------------------------------------------------------------------

  /** The delete handler reads back the key behind a CDN URL of the converter, for a plain key. */
  lemma CdnKeyRoundTrip(scheme: string, host: string, key: string)
    requires RemovalHandler.ValidScheme(scheme)
    requires host != [] && '/' !in host && '?' !in host && '#' !in host
    requires RemovalHandler.PlainKey(key)
    ensures RemovalHandler.KeyOfUrl(ImageConverter.CdnUrl(scheme + "://" + host, key)) == Some(key)
  {
    RemovalHandler.KeyOfJoinedUrl(scheme, host, key);
  }

  /** An extension of path characters and no `/`, as the one `splitext` leaves. */
  predicate PlainExt(ext: string)
  {
    forall k :: 0 <= k < |ext| ==> RemovalHandler.PathChar(ext[k]) && ext[k] != '/'
  }

  /** With a plain output folder and a plain extension, every output key is plain. */
  lemma OutputKeysPlain(l: ImageConverter.Layout, size: nat, alpha: bool)
    requires RemovalHandler.PlainKey(ImageConverter.Folder(l))
    requires PlainExt(l.ext)
    ensures RemovalHandler.PlainKey(ImageConverter.OriginalKey(l))
    ensures RemovalHandler.PlainKey(ImageConverter.VariantKey(l, size, alpha))
  {
    var tail := "original" + l.ext;
    forall k | 0 <= k < |tail|
      ensures RemovalHandler.PathChar(tail[k]) && (tail[k] == '.' ==> k > 0 && tail[k - 1] != '/')
    {
      if k >= 8 {
        assert tail[k] == l.ext[k - 8];
        if k > 8 {
          assert tail[k - 1] == l.ext[k - 9];
        }
      }
    }
    RemovalHandler.PlainKeyConcat(ImageConverter.Folder(l), tail);
    var digits := NatToString(size);
    var rest := digits + ImageConverter.Extension(alpha);
    forall k | 0 <= k < |rest|
      ensures RemovalHandler.PathChar(rest[k]) && (rest[k] == '.' ==> k > 0 && rest[k - 1] != '/')
    {
      if k < |digits| {
        assert IsDigit(digits[k]);
      } else if k == |digits| {
        assert IsDigit(rest[k - 1]);
      }
    }
    RemovalHandler.PlainKeyConcat(ImageConverter.Folder(l), rest);
  }

  /**
   * Removing the item a successful conversion recorded deletes exactly the
   * objects that conversion wrote, in the order it wrote them, with one
   * bulk delete: the CDN domain is `scheme://host`, and the upload's output
   * folder and extension are plain.
   */
  lemma RemovalDeletesConvertedObjects(
    key: string, objects: map<string, Blob>, available: bool, denied: set<string>,
    facts: Option<ImageConverter.ImageFacts>, render: nat -> ImageConverter.Rendition,
    scheme: string, host: string, urls: seq<Variant>, t: ImageConverter.Target, record: StreamRecord, deleteDenied: set<string>)
    requires ImageConverter.Converted(key, objects, available, denied, facts, render, scheme + "://" + host).result == Success(urls)
    requires record.eventName == "REMOVE"
    requires record.oldImage == Some(MarshalItem(ImageConverter.ConvertedItem(t, urls)))
    requires RemovalHandler.ValidScheme(scheme)
    requires host != [] && '/' !in host && '?' !in host && '#' !in host
    requires RemovalHandler.PlainKey(ImageConverter.Folder(ImageConverter.LayoutOf(key)))
    requires PlainExt(ImageConverter.LayoutOf(key).ext)
    ensures key in objects && facts.Some?
    ensures var keys := ImageConverter.OutputKeys(ImageConverter.Outputs(key, objects[key], facts.value, render, scheme + "://" + host));
      RemovalHandler.KeysOf(RemovalHandler.BatchUrls([record])) == Some(keys) &&
      RemovalHandler.Removed([record], true, deleteDenied).ops == [DeleteObjects(keys)]
  {
    var cdn := scheme + "://" + host;
    ImageConverter.ConvertedOnSuccess(key, objects, available, denied, facts, render, cdn);
    var f := facts.value;
    var outs := ImageConverter.Outputs(key, objects[key], f, render, cdn);
    ImageConverter.OutputKeysAndUrls(key, objects[key], f, render, cdn);
    var l := ImageConverter.LayoutOf(key);
    var sizes := ImageConverter.SelectSizes(f.width, f.height);
    forall i | 0 <= i < |outs|
      ensures RemovalHandler.PlainKey(outs[i].key)
    {
      if i == 0 {
        OutputKeysPlain(l, 0, ImageConverter.HasAlpha(f));
      } else {
        OutputKeysPlain(l, sizes[i - 1], ImageConverter.HasAlpha(f));
      }
    }
    RemovalOfRecordedOutputs(outs, scheme, host, t, record, deleteDenied);
  }

  /** The same for any outputs whose entries point at the CDN copies of their plain keys. */
  lemma RemovalOfRecordedOutputs(
    outs: seq<ImageConverter.Output>, scheme: string, host: string, t: ImageConverter.Target,
    record: StreamRecord, deleteDenied: set<string>)
    requires outs != []
    requires forall i :: 0 <= i < |outs| ==> outs[i].variant.url == ImageConverter.CdnUrl(scheme + "://" + host, outs[i].key)
    requires forall i :: 0 <= i < |outs| ==> RemovalHandler.PlainKey(outs[i].key)
    requires record.eventName == "REMOVE"
    requires record.oldImage == Some(MarshalItem(ImageConverter.ConvertedItem(t, ImageConverter.VariantsOf(outs))))
    requires RemovalHandler.ValidScheme(scheme)
    requires host != [] && '/' !in host && '?' !in host && '#' !in host
    ensures var keys := ImageConverter.OutputKeys(outs);
      RemovalHandler.KeysOf(RemovalHandler.BatchUrls([record])) == Some(keys) &&
      RemovalHandler.Removed([record], true, deleteDenied).ops == [DeleteObjects(keys)]
  {
    var keys := ImageConverter.OutputKeys(outs);
    var item := ImageConverter.ConvertedItem(t, ImageConverter.VariantsOf(outs));
    assert forall i :: 0 <= i < |keys| ==> item.convertedImageUrls[i].url == scheme + "://" + host + "/" + keys[i];
    RemovalHandler.RemovedItemKeys(record, item, scheme, host, keys);
  }

  // ---------------------------------------------------------------------
  // Converter -> gallery card
  // ---------------------------------------------------------------------

  /** A converted item's card counts the original and every rendition, so at least two sizes. */
  lemma GalleryCountOfConverted(
    key: string, objects: map<string, Blob>, available: bool, denied: set<string>,
    facts: Option<ImageConverter.ImageFacts>, render: nat -> ImageConverter.Rendition, cdn: string)
    requires ImageConverter.Converted(key, objects, available, denied, facts, render, cdn).result.Success?
    ensures facts.Some?
    ensures var vs := ImageConverter.Converted(key, objects, available, denied, facts, render, cdn).result.value;
      Gallery.SizeCount(Some(vs)) == 1 + |ImageConverter.SelectSizes(facts.value.width, facts.value.height)| >= 2
  {
    ImageConverter.SuccessVariantOrder(key, objects, available, denied, facts, render, cdn);
  }

  /** The URL of the 256-pixel rendition names it as the thumbnail. */
  lemma RenditionUrlIsThumbnail(cdn: string, l: ImageConverter.Layout, alpha: bool)
    ensures Contains(ImageConverter.CdnUrl(cdn, ImageConverter.VariantKey(l, 256, alpha)), "/256.")
  {
    var folder := ImageConverter.Folder(l);
    assert NatToString(256) == "256" by {
      assert NatToString(2) == "2";
      assert NatToString(25) == "25";
    }
    var ext := ImageConverter.Extension(alpha);
    var url := ImageConverter.CdnUrl(cdn, ImageConverter.VariantKey(l, 256, alpha));
    var i := |cdn + "/" + folder| - 1;
    assert folder[|folder| - 1] == '/';
    assert url == cdn + "/" + folder + "256" + ext;
    assert url[i..i + 5] == "/256.";
    ContainsAt(url, "/256.", i);
  }

  /**
   * For an image of at least 256 pixels on its longer side, the gallery's
   * thumbnail is the 256-pixel rendition, unless the original's own URL
   * already matches, in which case the original (listed first) is shown.
   */
  lemma GalleryThumbnailOfConverted(
    key: string, objects: map<string, Blob>, available: bool, denied: set<string>,
    facts: Option<ImageConverter.ImageFacts>, render: nat -> ImageConverter.Rendition, cdn: string)
    requires ImageConverter.Converted(key, objects, available, denied, facts, render, cdn).result.Success?
    requires facts.Some? && ImageConverter.Max(facts.value.width, facts.value.height) >= 256
    ensures var vs := ImageConverter.Converted(key, objects, available, denied, facts, render, cdn).result.value;
      var l := ImageConverter.LayoutOf(key);
      var original := ImageConverter.CdnUrl(cdn, ImageConverter.OriginalKey(l));
      var rendition := ImageConverter.CdnUrl(cdn, ImageConverter.VariantKey(l, 256, ImageConverter.HasAlpha(facts.value)));
      Gallery.SmallestImage(Some(vs)).Some? &&
      (Contains(original, "/256.") ==> Gallery.SmallestImage(Some(vs)).value.url == original) &&
      (!Contains(original, "/256.") ==> Gallery.SmallestImage(Some(vs)).value.url == rendition)
  {
    ImageConverter.SuccessVariantOrder(key, objects, available, denied, facts, render, cdn);
    var f := facts.value;
    var sizes := ImageConverter.SelectSizes(f.width, f.height);
    ImageConverter.SizesFacts();
    assert sizes[0] == 256 by {
      assert 256 in sizes;
      assert forall s :: s in sizes ==> 256 <= s;
    }
    var l := ImageConverter.LayoutOf(key);
    var alpha := ImageConverter.HasAlpha(f);
    RenditionUrlIsThumbnail(cdn, l, alpha);
    var vs := ImageConverter.Converted(key, objects, available, denied, facts, render, cdn).result.value;
    ThumbnailOfList(vs, ImageConverter.CdnUrl(cdn, ImageConverter.OriginalKey(l)),
      ImageConverter.CdnUrl(cdn, ImageConverter.VariantKey(l, 256, alpha)));
  }

  /** A list whose second entry is a thumbnail shows its first entry if that matches too, else the second. */
  lemma ThumbnailOfList(vs: seq<Variant>, original: string, rendition: string)
    requires |vs| >= 2 && vs[0].url == original && vs[1].url == rendition
    requires Contains(rendition, "/256.")
    ensures Gallery.SmallestImage(Some(vs)).Some?
    ensures Contains(original, "/256.") ==> Gallery.SmallestImage(Some(vs)).value.url == original
    ensures !Contains(original, "/256.") ==> Gallery.SmallestImage(Some(vs)).value.url == rendition
  {
    assert Gallery.IsThumbnail(vs[1]);
  }
}
