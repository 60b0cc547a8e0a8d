/**
 * The web tier's two server actions: `fetchPresignedUrl`, which turns the
 * user's file name into a safe upload key under `instantuploads/`, and
 * `deleteImage`, which checks ownership, works out the bytes to give back
 * and removes the image's table item, its database row and its share of
 * the storage usage, in that order.
 *
 * The sanitiser starts from the file name after Unicode NFD
 * normalisation; the session, the clock and the table lookup are
 * parameters.
 */
module ServerActions {
  import opened Wrappers
  import opened Text

  /** U+0300 to U+036F, the combining diacritical marks NFD splits off. */
  predicate CombiningMark(c: char)
  {
    0x300 <= c as int <= 0x36F
  }

  /** `[a-zA-Z0-9._-]`. */
  predicate SafeChar(c: char)
  {
    'a' <= c <= 'z' || 'A' <= c <= 'Z' || '0' <= c <= '9' || c == '.' || c == '_' || c == '-'
  }

  /** `[a-z0-9._-]`, the alphabet of a sanitised name. */
  predicate NameChar(c: char)
  {
    'a' <= c <= 'z' || '0' <= c <= '9' || c == '.' || c == '_' || c == '-'
  }

  ghost predicate NoDoubleUnderscore(s: string)
  {
    forall i, j :: 0 <= i < j < |s| && j == i + 1 ==> !(s[i] == '_' && s[j] == '_')
  }

  /** `.replace(/[̀-ͯ]/g, "")`. */
  function StripMarks(s: string): (r: string)
    ensures |r| <= |s|
    ensures forall k :: 0 <= k < |r| ==> !CombiningMark(r[k])
  {
    if s == [] then [] else (if CombiningMark(s[0]) then [] else [s[0]]) + StripMarks(s[1..])
  }

  /** `.replace(/[^a-zA-Z0-9._-]/g, "_")`. */
  function ReplaceUnsafe(s: string): (r: string)
    ensures |r| == |s|
    ensures forall k :: 0 <= k < |r| ==> SafeChar(r[k])
    ensures forall k :: 0 <= k < |s| && SafeChar(s[k]) ==> r[k] == s[k]
    ensures forall k :: 0 <= k < |s| && !SafeChar(s[k]) ==> r[k] == '_'
  {
    seq(|s|, k requires 0 <= k < |s| => if SafeChar(s[k]) then s[k] else '_')
  }

  /** The characters of `s` other than `_`, in order. */
  function NonUnderscores(s: string): string
    decreases |s|
  {
    if s == [] then [] else (if s[0] == '_' then [] else [s[0]]) + NonUnderscores(s[1..])
  }

  /**
   * `r` is `s` with `a` characters cut from the front and `b` from the back:
   * a leading `_` is cut exactly when there is one, and a trailing `_` of
   * what is left is cut exactly when there is one.
   */
  ghost predicate Trimmed(s: string, r: string, a: nat, b: nat)
  {
    a <= 1 && b <= 1 && a + b <= |s| && r == s[a..|s| - b]
    && (a == 1 <==> s != [] && s[0] == '_')
    && (b == 1 <==> |s| > a && s[|s| - 1] == '_')
  }

  /** `.replace(/_{2,}/g, "_")`: every run of underscores becomes one. */
  function Collapse(s: string): (r: string)
    ensures |r| <= |s| && (r == [] <==> s == [])
    ensures r != [] ==> r[0] == s[0] && r[|r| - 1] == s[|s| - 1]
    ensures NoDoubleUnderscore(r)
    ensures (forall k :: 0 <= k < |s| ==> SafeChar(s[k])) ==> forall k :: 0 <= k < |r| ==> SafeChar(r[k])
    decreases |s|
  {
    if s == [] then []
    else if |s| >= 2 && s[0] == '_' && s[1] == '_' then Collapse(s[1..])
    else
      var rest := Collapse(s[1..]);
      assert forall k :: 1 <= k < |[s[0]] + rest| ==> ([s[0]] + rest)[k] == rest[k - 1];
      [s[0]] + rest
  }

  /** `.replace(/^_|_$/g, "")`: one leading and one trailing underscore go. */
  function Trim(s: string): (r: string)
    ensures |r| <= |s|
    ensures NoDoubleUnderscore(s) ==> r == [] || (r[0] != '_' && r[|r| - 1] != '_')
    ensures NoDoubleUnderscore(s) ==> NoDoubleUnderscore(r)
    ensures (forall k :: 0 <= k < |s| ==> SafeChar(s[k])) ==> forall k :: 0 <= k < |r| ==> SafeChar(r[k])
  {
    var t := if s != [] && s[0] == '_' then s[1..] else s;
    if t != [] && t[|t| - 1] == '_' then t[..|t| - 1] else t
  }

  function LowerChar(c: char): char
  {
    if 'A' <= c <= 'Z' then (c as int + 32) as char else c
  }

  /** `.toLowerCase()` on the ASCII names the earlier steps leave. */
  function Lower(s: string): (r: string)
    ensures |r| == |s|
    ensures forall k :: 0 <= k < |s| && 'A' <= s[k] <= 'Z' ==> r[k] as int == s[k] as int + 32
    ensures forall k :: 0 <= k < |s| && !('A' <= s[k] <= 'Z') ==> r[k] == s[k]
    ensures forall k :: 0 <= k < |s| ==> (r[k] == '_' <==> s[k] == '_')
    ensures forall k :: 0 <= k < |s| && SafeChar(s[k]) ==> NameChar(r[k])
  {
    seq(|s|, k requires 0 <= k < |s| => LowerChar(s[k]))
  }

  /** Removing the marks keeps every other character: exactly the marks go. */
  lemma {:induction false} StripMarksSpec(s: string)
    ensures forall c :: c in StripMarks(s) <==> c in s && !CombiningMark(c)
    decreases |s|
  {
    if s != [] {
      StripMarksSpec(s[1..]);
      assert s == [s[0]] + s[1..];
    }
  }

  /**
   * Stripping works character by character: it distributes over
   * concatenation, so with its one-character case it keeps every other
   * character in order and with its count.
   */
  lemma {:induction false} StripMarksAppend(a: string, b: string)
    ensures StripMarks(a + b) == StripMarks(a) + StripMarks(b)
    decreases |a|
  {
    if a == [] {
      assert a + b == b;
    } else {
      StripMarksAppend(a[1..], b);
      assert (a + b)[0] == a[0] && (a + b)[1..] == a[1..] + b;
    }
  }

  /**
   * A run of two underscores collapses as one does, wherever it stands;
   * with `CollapseKeeps` this fixes every run of `_` to exactly one.
   */
  lemma {:induction false} CollapseRun(a: string, b: string)
    ensures Collapse(a + "__" + b) == Collapse(a + "_" + b)
    decreases |a|
  {
    var s := a + "__" + b;
    var t := a + "_" + b;
    if a == [] {
      assert s == "_" + t;
      assert s[1..] == t;
    } else {
      CollapseRun(a[1..], b);
      assert s[0] == t[0] == a[0];
      assert s[1..] == a[1..] + "__" + b && t[1..] == a[1..] + "_" + b;
      assert s[1] == t[1];
    }
  }

  /** Collapsing keeps every character other than `_`, in order and with its multiplicity. */
  lemma {:induction false} CollapseSpec(s: string)
    ensures NonUnderscores(Collapse(s)) == NonUnderscores(s)
    decreases |s|
  {
    if s != [] {
      CollapseSpec(s[1..]);
      if !(|s| >= 2 && s[0] == '_' && s[1] == '_') {
        var rest := Collapse(s[1..]);
        assert ([s[0]] + rest)[1..] == rest;
      }
    }
  }

  /** Trimming cuts one leading `_` exactly when there is one, then one trailing `_` exactly when there is one. */
  lemma TrimSpec(s: string)
    ensures exists a, b :: Trimmed(s, Trim(s), a, b)
  {
    var a := if s != [] && s[0] == '_' then 1 else 0;
    var b := if |s| > a && s[|s| - 1] == '_' then 1 else 0;
    assert Trimmed(s, Trim(s), a, b);
  }

  /** The first three replacements: marks gone, unsafe characters replaced, underscore runs collapsed. */
  function Prepare(name: string): (r: string)
    ensures forall k :: 0 <= k < |r| ==> SafeChar(r[k])
    ensures NoDoubleUnderscore(r)
  {
    Collapse(ReplaceUnsafe(StripMarks(name)))
  }

  /** The sanitiser of `fetchPresignedUrl`, ending in `.slice(0, 200)`. */
  function Sanitise(name: string): (r: string)
    ensures forall k :: 0 <= k < |r| ==> NameChar(r[k])
    ensures |r| <= 200
    ensures NoDoubleUnderscore(r)
    ensures r == [] || r[0] != '_'
  {
    var lowered := Lower(Trim(Prepare(name)));
    if |lowered| <= 200 then lowered else lowered[..200]
  }

  /** A name already in the sanitised form, which the sanitiser keeps as it is (up to the cut at 200). */
  ghost predicate Clean(s: string)
  {
    (forall k :: 0 <= k < |s| ==> NameChar(s[k])) && NoDoubleUnderscore(s)
    && (s == [] || (s[0] != '_' && s[|s| - 1] != '_'))
  }

  lemma {:induction false} StripMarksKeeps(s: string)
    requires forall k :: 0 <= k < |s| ==> NameChar(s[k])
    ensures StripMarks(s) == s
  {
    if s != [] {
      StripMarksKeeps(s[1..]);
    }
  }

  lemma {:induction false} CollapseKeeps(s: string)
    requires NoDoubleUnderscore(s)
    ensures Collapse(s) == s
  {
    if s != [] {
      assert NoDoubleUnderscore(s[1..]) by {
        forall i, j | 0 <= i < j < |s[1..]| && j == i + 1
          ensures !(s[1..][i] == '_' && s[1..][j] == '_')
        {
          assert s[1..][i] == s[i + 1] && s[1..][j] == s[j + 1];
        }
      }
      CollapseKeeps(s[1..]);
      assert !(|s| >= 2 && s[0] == '_' && s[1] == '_');
    }
  }

  lemma ReplaceUnsafeKeeps(s: string)
    requires forall k :: 0 <= k < |s| ==> SafeChar(s[k])
    ensures ReplaceUnsafe(s) == s
  {
  }

  lemma PrepareKeeps(s: string)
    requires forall k :: 0 <= k < |s| ==> NameChar(s[k])
    requires NoDoubleUnderscore(s)
    ensures Prepare(s) == s
  {
    StripMarksKeeps(s);
    ReplaceUnsafeKeeps(s);
    CollapseKeeps(s);
  }

  lemma TrimKeeps(s: string)
    requires s == [] || (s[0] != '_' && s[|s| - 1] != '_')
    ensures Trim(s) == s
  {
  }

  lemma LowerKeeps(s: string)
    requires forall k :: 0 <= k < |s| ==> NameChar(s[k])
    ensures Lower(s) == s
  {
  }

  /** A clean name passes every step unchanged; only the cut to 200 characters remains. */
  lemma SanitiseClean(s: string)
    requires Clean(s)
    ensures Sanitise(s) == if |s| <= 200 then s else s[..200]
  {
    PrepareKeeps(s);
    TrimKeeps(s);
    LowerKeeps(s);
  }

  /** A name in the sanitised alphabet that ends in `_` loses that underscore when sanitised again. */
  lemma SanitiseDropsTrailing(r: string)
    requires forall k :: 0 <= k < |r| ==> NameChar(r[k])
    requires NoDoubleUnderscore(r) && 2 <= |r| <= 200 && r[0] != '_' && r[|r| - 1] == '_'
    ensures Sanitise(r) == r[..|r| - 1]
  {
    PrepareKeeps(r);
    var t := r[..|r| - 1];
    assert Trim(r) == t;
    assert forall k :: 0 <= k < |t| ==> NameChar(t[k]);
    LowerKeeps(t);
  }

  /**
   * The cut at 200 comes after the trim, so a sanitised name can still end
   * in an underscore, and sanitising it again changes it.
   */
  lemma TrailingUnderscoreAfterCut()
    ensures exists name :: var r := Sanitise(name); r != [] && r[|r| - 1] == '_' && Sanitise(r) != r
  {
    var name := seq(199, _ => 'a') + "_b";
    CutWitness(name);
    SanitiseClean(name);
    var r := name[..200];
    SanitiseDropsTrailing(r);
    assert |Sanitise(r)| == 199;
  }

  /** 199 letters, an underscore and a letter: clean, and its first 200 characters end in the underscore. */
  lemma CutWitness(name: string)
    requires name == seq(199, _ => 'a') + "_b"
    ensures Clean(name) && |name| == 201
    ensures var r := name[..200];
      (forall k :: 0 <= k < |r| ==> NameChar(r[k])) && NoDoubleUnderscore(r) && r[0] != '_' && r[199] == '_'
  {
    assert forall k :: 0 <= k < 199 ==> name[k] == 'a';
    assert name[199] == '_' && name[200] == 'b';
  }

  /** `toISOString().replace(/[:.]/g, "-")`: same length, no `:` or `.`, everything else kept. */
  function Stamp(iso: string): (r: string)
    ensures |r| == |iso|
    ensures ':' !in r && '.' !in r
    ensures forall k :: 0 <= k < |iso| && iso[k] != ':' && iso[k] != '.' ==> r[k] == iso[k]
  {
    seq(|iso|, k requires 0 <= k < |iso| => if iso[k] == ':' || iso[k] == '.' then '-' else iso[k])
  }

  /** Only `:` and `.` are replaced, and only by `-`: any other character absent from the timestamp stays absent. */
  lemma StampKeepsAbsent(iso: string, c: char)
    requires c !in iso && c != '-'
    ensures c !in Stamp(iso)
  {
    var r := Stamp(iso);
    assert forall k :: 0 <= k < |iso| ==> r[k] == '-' || r[k] == iso[k];
  }

  /** The sanitised name, or `file` when nothing is left of it. */
  function UploadName(fileName: string): (r: string)
    ensures r != [] && '/' !in r && '_' != r[0]
    ensures forall k :: 0 <= k < |r| ==> NameChar(r[k])
  {
    var s := Sanitise(fileName);
    if s == [] then "file" else s
  }

  /** `instantuploads/<userId>/<stamp>_<name>`. */
  function FileKey(userId: string, iso: string, fileName: string): string
  {
    "instantuploads/" + userId + "/" + Stamp(iso) + "_" + UploadName(fileName)
  }

  /**
   * For a user id and a timestamp free of `/`, the upload key has exactly
   * three `/`-separated segments, the last being the stamped name.
   */
  lemma FileKeySegments(userId: string, iso: string, fileName: string)
    requires '/' !in userId && '/' !in iso
    ensures Split(FileKey(userId, iso, fileName), '/') ==
      ["instantuploads", userId, Stamp(iso) + "_" + UploadName(fileName)]
  {
    StampKeepsAbsent(iso, '/');
    KeySegments(userId, Stamp(iso), UploadName(fileName));
  }

  lemma KeySegments(userId: string, stamp: string, name: string)
    requires '/' !in userId && '/' !in stamp && '/' !in name
    ensures Split("instantuploads/" + userId + "/" + stamp + "_" + name, '/') == ["instantuploads", userId, stamp + "_" + name]
  {
    var last := stamp + "_" + name;
    assert '/' !in last;
    assert "instantuploads/" + userId + "/" + stamp + "_" + name == "instantuploads" + ['/'] + (userId + ['/'] + last);
    SplitCons("instantuploads", userId + ['/'] + last, '/');
    SplitCons(userId, last, '/');
    SplitNoSep(last, '/');
  }

  /** `fetchPresignedUrl`: the key the browser is allowed to upload to, or `Unauthorized` without a session. */
  function FetchPresignedUrl(session: Option<string>, fileName: string, iso: string): (r: Result<string, string>)
    ensures session.None? <==> r == Failure("Unauthorized")
    ensures r.Success? ==> StartsWith(r.value, "instantuploads/" + session.value + "/")
  {
    match session
    case None => Failure("Unauthorized")
    case Some(userId) =>
      FileKeyPrefix(userId, iso, fileName);
      Success(FileKey(userId, iso, fileName))
  }

  lemma FileKeyPrefix(userId: string, iso: string, fileName: string)
    ensures StartsWith(FileKey(userId, iso, fileName), "instantuploads/" + userId + "/")
  {
    KeyPrefix(userId, Stamp(iso) + "_" + UploadName(fileName));
  }

  lemma KeyPrefix(userId: string, name: string)
    ensures StartsWith("instantuploads/" + userId + "/" + name, "instantuploads/" + userId + "/")
  {
    StartsWithConcat("instantuploads/" + userId + "/", name);
  }

  /** One row of the `images` table of the relational database. */
  datatype ImageRow = ImageRow(id: nat, userId: string, imageId: string)

  /** The effects of `deleteImage`, in the order it makes them. */
  datatype Effect =
    | TableItemDelete(userId: string, imageId: string)
    | RowDelete(id: nat)
    | UsageDecrement(userId: string, bytes: nat)

  /** `images.findFirst({where: {imageId, userId}})`: the first row of the image owned by the user. */
  function FindRow(rows: seq<ImageRow>, imageId: string, userId: string): (r: Option<nat>)
    ensures r.Some? ==> r.value < |rows| && rows[r.value].imageId == imageId && rows[r.value].userId == userId
    ensures r.Some? ==> forall j :: 0 <= j < r.value ==> !(rows[j].imageId == imageId && rows[j].userId == userId)
    ensures r.None? ==> forall j :: 0 <= j < |rows| ==> !(rows[j].imageId == imageId && rows[j].userId == userId)
  {
    if rows == [] then None
    else if rows[0].imageId == imageId && rows[0].userId == userId then Some(0)
    else match FindRow(rows[1..], imageId, userId)
      case None => None
      case Some(i) => Some(i + 1)
  }

  /** `images.delete({where: {id}})`: every other row stays, in order. */
  function WithoutRow(rows: seq<ImageRow>, id: nat): (r: seq<ImageRow>)
    ensures forall x :: x in r <==> x in rows && x.id != id
    ensures |r| <= |rows|
  {
    if rows == [] then [] else (if rows[0].id == id then [] else [rows[0]]) + WithoutRow(rows[1..], id)
  }

  /** The `reduce` over the variant sizes. */
  function Sum(sizes: seq<nat>): nat
  {
    if sizes == [] then 0 else sizes[0] + Sum(sizes[1..])
  }

  lemma {:induction false} SumAppend(a: seq<nat>, b: seq<nat>)
    ensures Sum(a + b) == Sum(a) + Sum(b)
  {
    if a == [] {
      assert a + b == b;
    } else {
      SumAppend(a[1..], b);
      assert (a + b)[1..] == a[1..] + b;
    }
  }

  /** The sum is positive exactly when some variant has a positive size. */
  lemma {:induction false} SumPositive(sizes: seq<nat>)
    ensures Sum(sizes) > 0 <==> exists i :: 0 <= i < |sizes| && sizes[i] > 0
  {
    if sizes != [] {
      SumPositive(sizes[1..]);
      if Sum(sizes[1..]) > 0 {
        var i :| 0 <= i < |sizes[1..]| && sizes[1..][i] > 0;
        assert sizes[i + 1] > 0;
      }
      assert forall i :: 1 <= i < |sizes| ==> sizes[i] == sizes[1..][i - 1];
    }
  }

  /** `bytesToDeduct`: the sizes of the stored variants, or 0 when the item or its list is absent. */
  function BytesToDeduct(stored: Option<seq<nat>>): (n: nat)
    ensures stored.None? ==> n == 0
    ensures stored.Some? ==> n == Sum(stored.value)
  {
    match stored
    case None => 0
    case Some(sizes) => Sum(sizes)
  }

  /** The relational database and the table, as far as `deleteImage` touches them. */
  class Backend {
    var rows: seq<ImageRow>
    /** `usageMetric.totalStorageUsed` per user. */
    var usage: map<string, int>
    var log: seq<Effect>

    constructor(rows0: seq<ImageRow>, usage0: map<string, int>)
      ensures rows == rows0 && usage == usage0 && log == []
    {
      rows := rows0;
      usage := usage0;
      log := [];
    }

    /**
     * `deleteImage`: `stored` is the variant sizes of the table item as
     * the lookup returns them (`None` without item or list). Without a
     * session, or when the user owns no such image, nothing changes.
     * Otherwise the table item goes, then the row, then the usage falls
     * by the bytes to deduct when these are positive; a user without a
     * usage row makes that last update throw after the deletions.
     */
    method DeleteImage(session: Option<string>, imageId: string, stored: Option<seq<nat>>) returns (r: Result<string, string>)
      modifies this
      ensures session.None? ==>
        r == Failure("Unauthorized") && rows == old(rows) && usage == old(usage) && log == old(log)
      ensures session.Some? && FindRow(old(rows), imageId, session.value).None? ==>
        r == Failure("Image not found") && rows == old(rows) && usage == old(usage) && log == old(log)
      ensures session.Some? && FindRow(old(rows), imageId, session.value).Some? ==>
        var userId := session.value;
        var row := old(rows)[FindRow(old(rows), imageId, userId).value];
        var bytes := BytesToDeduct(stored);
        var decremented := bytes > 0 && userId in old(usage);
        rows == WithoutRow(old(rows), row.id) &&
        log == old(log) + [TableItemDelete(userId, imageId), RowDelete(row.id)]
          + (if decremented then [UsageDecrement(userId, bytes)] else []) &&
        usage == (if decremented then old(usage)[userId := old(usage)[userId] - bytes] else old(usage)) &&
        r == (if bytes > 0 && userId !in old(usage) then Failure("Record to update not found") else Success("/dashboard/images"))
    {
      if session.None? {
        return Failure("Unauthorized");
      }
      var userId := session.value;
      var found := FindRow(rows, imageId, userId);
      if found.None? {
        return Failure("Image not found");
      }
      var row := rows[found.value];
      var bytes := BytesToDeduct(stored);
      log := log + [TableItemDelete(userId, imageId)];
      rows := WithoutRow(rows, row.id);
      log := log + [RowDelete(row.id)];
      if bytes > 0 {
        if userId !in usage {
          return Failure("Record to update not found");
        }
        usage := usage[userId := usage[userId] - bytes];
        log := log + [UsageDecrement(userId, bytes)];
      }
      return Success("/dashboard/images");
    }
  }
}
