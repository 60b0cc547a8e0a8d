/**
 * The image gallery's display helpers: the thumbnail picked from an
 * item's variant list, the display name recovered from an image id, and
 * the "N sizes" count under each card.
 */
module Gallery {
  import opened Wrappers
  import opened Text
  import opened Records

  /** `img.url.includes("/256.")`: the entry looks like the 256-pixel rendition. */
  predicate IsThumbnail(v: Variant)
  {
    Contains(v.url, "/256.")
  }

  /**
   * `getSmallestImage`: nothing for an absent or empty list; otherwise the
   * first entry whose url names the 256-pixel rendition, or the first
   * entry when none does.
   */
  function SmallestImage(urls: Option<seq<Variant>>): (r: Option<Variant>)
    ensures r.None? <==> urls.None? || urls.value == []
    ensures r.Some? ==> r.value in urls.value
    ensures r.Some? && IsThumbnail(r.value) ==>
      exists i :: 0 <= i < |urls.value| && urls.value[i] == r.value
        && forall j :: 0 <= j < i ==> !IsThumbnail(urls.value[j])
    ensures r.Some? && !IsThumbnail(r.value) ==>
      r.value == urls.value[0] && forall j :: 0 <= j < |urls.value| ==> !IsThumbnail(urls.value[j])
  {
    match urls
    case None => None
    case Some(vs) =>
      if vs == [] then None
      else
        match FindIndex(vs, IsThumbnail)
        case Some(i) => Some(vs[i])
        case None => Some(vs[0])
  }

  /** Splitting at `_` and dropping the first piece leaves what follows the first `_`. */
  lemma DropFirstPart(s: string)
    ensures Join(Split(s, '_')[1..], '_') == (var i := IndexOf(s, '_'); if i < 0 then "" else s[i + 1..])
  {
    var i := IndexOf(s, '_');
    if i < 0 {
      SplitNoSep(s, '_');
    } else {
      assert s == s[..i] + ['_'] + s[i + 1..];
      SplitCons(s[..i], s[i + 1..], '_');
      assert Split(s, '_')[1..] == Split(s[i + 1..], '_');
      JoinSplit(s[i + 1..], '_');
    }
  }

  /**
   * `getImageName`: `split("_").slice(1).join("_") || imageId`, that is,
   * everything after the first underscore, or the whole id when that is
   * empty (no underscore, or a single one at the very end).
   */
  function ImageName(imageId: string): (r: string)
    ensures r == (var i := IndexOf(imageId, '_'); if 0 <= i < |imageId| - 1 then imageId[i + 1..] else imageId)
  {
    var rest := Join(Split(imageId, '_')[1..], '_');
    DropFirstPart(imageId);
    if rest != "" then rest else imageId
  }

  /** An id without an underscore is shown as it is. */
  lemma NameWithoutUnderscore(imageId: string)
    requires '_' !in imageId
    ensures ImageName(imageId) == imageId
  {
  }

  /**
   * The name inverts `T + "_" + name` for an underscore-free prefix `T`
   * (such as the upload timestamp) and a non-empty name, underscores in
   * the name included.
   */
  lemma NameAfterPrefix(prefix: string, name: string)
    requires '_' !in prefix && name != ""
    ensures ImageName(prefix + "_" + name) == name
  {
    var s := prefix + "_" + name;
    assert s[|prefix|] == '_';
    assert s[..|prefix|] == prefix;
    assert s[|prefix| + 1..] == name;
  }

  /** `image.convertedImageUrls?.length || 0`, the number of sizes under each card. */
  function SizeCount(urls: Option<seq<Variant>>): nat
  {
    match urls
    case None => 0
    case Some(vs) => |vs|
  }
}
