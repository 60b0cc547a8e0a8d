/**
 * The delete-image handler: when table items are removed, the change
 * stream delivers their old images; the handler collects the storage key
 * behind every variant URL of every removed item of the batch and asks
 * the bucket to delete them all in one bulk call.
 *
 * URLs are parsed with the `scheme://host/path` subset of the WHATWG URL
 * Standard; the handler only uses the parsed `pathname`.
 */
module RemovalHandler {
  import opened Wrappers
  import opened Text
  import opened Records
  import opened Stores

  /** The parts of a parsed URL the handler depends on. */
  datatype Url = Url(scheme: string, host: string, pathname: string)

  predicate SchemeStart(c: char)
  {
    'a' <= c <= 'z' || 'A' <= c <= 'Z'
  }

  predicate SchemeChar(c: char)
  {
    SchemeStart(c) || '0' <= c <= '9' || c == '+' || c == '-' || c == '.'
  }

  /** An ASCII letter followed by letters, digits, `+`, `-` and `.`. */
  predicate ValidScheme(s: string)
  {
    s != [] && SchemeStart(s[0]) && forall k :: 1 <= k < |s| ==> SchemeChar(s[k])
  }

  /** The length of the longest prefix of `s` free of the characters `stops`. */
  function Until(s: string, stops: set<char>): (n: nat)
    ensures n <= |s|
    ensures forall k :: 0 <= k < n ==> s[k] !in stops
    ensures n < |s| ==> s[n] in stops
  {
    if s == [] || s[0] in stops then 0 else 1 + Until(s[1..], stops)
  }

  /**
   * `new URL(url)` without a base: the scheme runs to the first `:` and
   * must be followed by `//`, the host runs to the first `/`, `?` or `#`
   * and must not be empty, and the path runs from there to the first `?`
   * or `#`; an empty path is `/`. Anything else throws a `TypeError`,
   * modelled as `None`.
   */
  function ParseUrl(url: string): (r: Option<Url>)
    ensures r.Some? ==> ValidScheme(r.value.scheme) && r.value.host != []
    ensures r.Some? ==> r.value.pathname != [] && r.value.pathname[0] == '/'
    ensures r.Some? ==> '?' !in r.value.pathname && '#' !in r.value.pathname
  {
    var colon := IndexOf(url, ':');
    if colon < 0 then None else ParseHierarchical(url[..colon], url[colon + 1..])
  }

  /** What follows `scheme:`; only the `//host/path` form is accepted. */
  function ParseHierarchical(scheme: string, rest: string): (r: Option<Url>)
    ensures r.Some? ==> ValidScheme(r.value.scheme) && r.value.host != []
    ensures r.Some? ==> r.value.pathname != [] && r.value.pathname[0] == '/'
    ensures r.Some? ==> '?' !in r.value.pathname && '#' !in r.value.pathname
  {
    if !ValidScheme(scheme) || !StartsWith(rest, "//") then None else ParseAuthority(scheme, rest[2..])
  }

  /** The host up to the first `/`, `?` or `#`, then the path. */
  function ParseAuthority(scheme: string, authority: string): (r: Option<Url>)
    requires ValidScheme(scheme)
    ensures r.Some? ==> r.value.scheme == scheme && r.value.host != []
    ensures r.Some? ==> r.value.pathname != [] && r.value.pathname[0] == '/'
    ensures r.Some? ==> '?' !in r.value.pathname && '#' !in r.value.pathname
  {
    var h := Until(authority, {'/', '?', '#'});
    if h == 0 then None else Some(Url(scheme, authority[..h], PathOf(authority[h..])))
  }

  /** The path of what follows the host: up to the first `?` or `#`, and `/` when that is empty. */
  function PathOf(tail: string): (p: string)
    requires tail == [] || tail[0] in {'/', '?', '#'}
    ensures p != [] && p[0] == '/'
    ensures '?' !in p && '#' !in p
    ensures p == "/" || StartsWith(tail, p)
  {
    var n := Until(tail, {'?', '#'});
    if n == 0 then "/" else tail[..n]
  }

  /** `urlObj.pathname.substring(1)`: the storage key a variant URL points at. */
  function KeyOfUrl(url: string): (r: Option<string>)
    ensures r.Some? <==> ParseUrl(url).Some?
    ensures r.Some? ==> ParseUrl(url).value.pathname == "/" + r.value
  {
    match ParseUrl(url)
    case None => None
    case Some(u) => Some(u.pathname[1..])
  }

  /** The characters a URL path carries unchanged: the unreserved ones of RFC 3986 and `/`. */
  predicate PathChar(c: char)
  {
    'a' <= c <= 'z' || 'A' <= c <= 'Z' || '0' <= c <= '9' || c in {'-', '.', '_', '~', '/'}
  }

  /**
   * A key that a URL parser keeps verbatim as the path after the first `/`:
   * only path characters (nothing to percent-encode, no `\`, `?` or `#`),
   * and no segment that starts with `.`, so no `.` or `..` segment to resolve.
   */
  predicate PlainKey(key: string)
  {
    (forall k :: 0 <= k < |key| ==> PathChar(key[k])) &&
    (forall k :: 0 <= k < |key| && key[k] == '.' ==> k > 0 && key[k - 1] != '/')
  }

  /** Two plain keys side by side make a plain key: the second one's first character is no `.`. */
  lemma PlainKeyConcat(a: string, b: string)
    requires PlainKey(a) && PlainKey(b)
    ensures PlainKey(a + b)
  {
    var s := a + b;
    forall k | 0 <= k < |s|
      ensures PathChar(s[k]) && (s[k] == '.' ==> k > 0 && s[k - 1] != '/')
    {
      if k < |a| {
        assert s[k] == a[k];
      } else {
        assert s[k] == b[k - |a|];
        if k > |a| {
          assert s[k - 1] == b[k - 1 - |a|];
        }
      }
    }
  }

  /**
   * The key is read back from a URL built as `base + "/" + key`, when
   * `base` is `scheme://host`, the host holds no character that ends the
   * authority, and the key is plain.
   */
  lemma KeyOfJoinedUrl(scheme: string, host: string, key: string)
    requires ValidScheme(scheme)
    requires host != [] && '/' !in host && '?' !in host && '#' !in host
    requires PlainKey(key)
    ensures KeyOfUrl(scheme + "://" + host + "/" + key) == Some(key)
  {
    assert '?' !in key && '#' !in key by {
      assert forall k :: 0 <= k < |key| ==> PathChar(key[k]);
    }
    var rest := "//" + (host + "/" + key);
    assert scheme + "://" + host + "/" + key == scheme + ":" + rest;
    assert ':' !in scheme by {
      assert forall k :: 0 <= k < |scheme| ==> SchemeChar(scheme[k]);
    }
    IndexOfFirst(scheme, rest, ':');
    assert (scheme + ":" + rest)[..|scheme|] == scheme;
    assert (scheme + ":" + rest)[|scheme| + 1..] == rest;
    assert StartsWith(rest, "//") && rest[2..] == host + "/" + key;
    AuthorityOfJoin(scheme, host, key);
  }

  lemma IndexOfFirst(a: string, b: string, c: char)
    requires c !in a
    ensures IndexOf(a + [c] + b, c) == |a|
  {
    var s := a + [c] + b;
    assert s[|a|] == c;
    assert s[..|a|] == a;
  }

  lemma AuthorityOfJoin(scheme: string, host: string, key: string)
    requires ValidScheme(scheme)
    requires host != [] && '/' !in host && '?' !in host && '#' !in host
    requires '?' !in key && '#' !in key
    ensures ParseAuthority(scheme, host + "/" + key) == Some(Url(scheme, host, "/" + key))
  {
    var authority := host + "/" + key;
    assert authority[|host|] == '/';
    assert forall k :: 0 <= k < |host| ==> authority[k] == host[k];
    assert Until(authority, {'/', '?', '#'}) == |host|;
    assert authority[..|host|] == host && authority[|host|..] == "/" + key;
    PathOfJoin(key);
  }

  lemma PathOfJoin(key: string)
    requires '?' !in key && '#' !in key
    ensures PathOf("/" + key) == "/" + key
  {
    var tail := "/" + key;
    assert forall k :: 1 <= k < |tail| ==> tail[k] == key[k - 1];
    assert Until(tail, {'?', '#'}) == |tail|;
  }

  /** A URL with no `:` at all is relative, and a base-less `new URL` throws. */
  lemma RelativeUrlThrows(url: string)
    requires ':' !in url
    ensures KeyOfUrl(url) == None
  {
  }

  /** `item.M?.url?.S`, kept only when it is a non-empty string. */
  function ItemUrl(item: Attr): (r: Option<string>)
    ensures r.Some? <==> item.M? && "url" in item.m && item.m["url"].S? && item.m["url"].s != ""
    ensures r.Some? ==> item.m["url"] == S(r.value)
  {
    if item.M? && "url" in item.m && item.m["url"].S? && item.m["url"].s != "" then Some(item.m["url"].s) else None
  }

  /** The URLs of a list of variant entries, in list order. */
  function ItemUrls(items: seq<Attr>): (urls: seq<string>)
    ensures |urls| <= |items|
    decreases |items|
  {
    if items == [] then []
    else
      var n := |items| - 1;
      ItemUrls(items[..n]) + (match ItemUrl(items[n]) case Some(u) => [u] case None => [])
  }

  /**
   * `OldImage.convertedImageUrls.L` of a `REMOVE` record; every other
   * record, and a removed item without such a list, contributes nothing.
   */
  function RemovedVariants(record: StreamRecord): seq<Attr>
  {
    if record.eventName == "REMOVE" && record.oldImage.Some?
       && "convertedImageUrls" in record.oldImage.value && record.oldImage.value["convertedImageUrls"].L?
    then record.oldImage.value["convertedImageUrls"].l
    else []
  }

  /** The URLs of the whole batch, record by record and item by item. */
  function BatchUrls(records: seq<StreamRecord>): seq<string>
    decreases |records|
  {
    if records == [] then []
    else
      var n := |records| - 1;
      BatchUrls(records[..n]) + ItemUrls(RemovedVariants(records[n]))
  }

  /** The keys behind `urls`, in order and with duplicates, or `None` once one URL does not parse. */
  function KeysOf(urls: seq<string>): Option<seq<string>>
  {
    MapAll(urls, KeyOfUrl)
  }

  lemma {:induction false} ItemUrlsAppend(a: seq<Attr>, b: seq<Attr>)
    ensures ItemUrls(a + b) == ItemUrls(a) + ItemUrls(b)
    decreases |b|
  {
    if b != [] {
      var n := |b| - 1;
      ItemUrlsAppend(a, b[..n]);
      assert (a + b)[..|a + b| - 1] == a + b[..n];
    } else {
      assert a + b == a;
    }
  }

  lemma ItemUrlsSplit(items: seq<Attr>, j: nat)
    requires j <= |items|
    ensures ItemUrls(items) == ItemUrls(items[..j]) + ItemUrls(items[j..])
  {
    assert items == items[..j] + items[j..];
    ItemUrlsAppend(items[..j], items[j..]);
  }

  /** Keys accumulate record by record: the URLs of a batch are those of its parts, in order. */
  lemma {:induction false} BatchUrlsAppend(a: seq<StreamRecord>, b: seq<StreamRecord>)
    ensures BatchUrls(a + b) == BatchUrls(a) + BatchUrls(b)
    decreases |b|
  {
    if b != [] {
      var n := |b| - 1;
      BatchUrlsAppend(a, b[..n]);
      assert (a + b)[..|a + b| - 1] == a + b[..n];
    } else {
      assert a + b == a;
    }
  }

  /** The JSON bodies of the handler's responses. */
  datatype Body =
    | NoFiles
    | DeletedFiles(deleted: seq<string>, errors: seq<string>)
    | DeleteError(error: string)

  /** A response, or an invocation that fails with an exception. */
  datatype Outcome = Response(statusCode: nat, body: Body) | Thrown(error: string)

  datatype Removal = Removal(outcome: Outcome, ops: seq<StoreOp>)

  /** What the handler answers for a batch, and the bucket calls it makes. */
  function Removed(records: seq<StreamRecord>, available: bool, denied: set<string>): (h: Removal)
    ensures h.outcome.Thrown? <==> KeysOf(BatchUrls(records)).None?
    ensures h.outcome == Response(200, NoFiles) <==> BatchUrls(records) == []
    ensures |h.ops| <= 1
    ensures h.ops != [] <==> available && BatchUrls(records) != [] && !h.outcome.Thrown?
  {
    match KeysOf(BatchUrls(records))
    case None => Removal(Thrown("TypeError: Invalid URL"), [])
    case Some(keys) =>
      if keys == [] then Removal(Response(200, NoFiles), [])
      else if !available then Removal(Response(500, DeleteError("ServiceUnavailable")), [])
      else Removal(Response(200, DeletedFiles(Deletable(keys, denied), Refused(keys, denied))), [DeleteObjects(keys)])
  }

  /** Records that are not `REMOVE` events contribute no key, wherever they stand in the batch. */
  lemma NonRemoveContributesNothing(records: seq<StreamRecord>, record: StreamRecord)
    requires record.eventName != "REMOVE"
    ensures BatchUrls(records + [record]) == BatchUrls(records)
  {
    assert (records + [record])[..|records|] == records;
  }

  /**
   * Keys accumulate across the whole batch: the keys of two consecutive
   * parts of a batch are those of the first followed by those of the
   * second, duplicates included.
   */
  lemma KeysAccumulate(a: seq<StreamRecord>, b: seq<StreamRecord>)
    ensures KeysOf(BatchUrls(a + b)) ==
      if KeysOf(BatchUrls(a)).Some? && KeysOf(BatchUrls(b)).Some?
      then Some(KeysOf(BatchUrls(a)).value + KeysOf(BatchUrls(b)).value)
      else None
  {
    BatchUrlsAppend(a, b);
    MapAllAppend(BatchUrls(a), BatchUrls(b), KeyOfUrl);
  }

  /** The URLs of a stored variant list, read back from its typed form. */
  lemma {:induction false} ItemUrlsOfVariants(vs: seq<Variant>)
    requires forall i :: 0 <= i < |vs| ==> vs[i].url != ""
    ensures ItemUrls(MarshalVariants(vs)) == seq(|vs|, i requires 0 <= i < |vs| => vs[i].url)
    decreases |vs|
  {
    if vs != [] {
      var n := |vs| - 1;
      ItemUrlsOfVariants(vs[..n]);
      assert MarshalVariants(vs)[..n] == MarshalVariants(vs[..n]);
      assert ItemUrl(MarshalVariant(vs[n])) == Some(vs[n].url);
    }
  }

  /**
   * Removing an item whose variant URLs are `scheme://host/k` for plain
   * keys `k` makes the handler gather exactly those keys,
   * in list order.
   */
  lemma RemovedItemKeys(record: StreamRecord, item: Item, scheme: string, host: string, keys: seq<string>)
    requires record.eventName == "REMOVE" && record.oldImage == Some(MarshalItem(item))
    requires ValidScheme(scheme) && host != [] && '/' !in host && '?' !in host && '#' !in host
    requires |keys| == |item.convertedImageUrls|
    requires forall i :: 0 <= i < |keys| ==>
      item.convertedImageUrls[i].url == scheme + "://" + host + "/" + keys[i] && PlainKey(keys[i])
    ensures KeysOf(BatchUrls([record])) == Some(keys)
  {
    var vs := item.convertedImageUrls;
    assert RemovedVariants(record) == MarshalVariants(vs);
    assert [record][..0] == [];
    assert BatchUrls([record]) == ItemUrls(MarshalVariants(vs));
    ItemUrlsOfVariants(vs);
    var urls := BatchUrls([record]);
    forall i | 0 <= i < |urls|
      ensures KeyOfUrl(urls[i]) == Some(keys[i])
    {
      KeyOfJoinedUrl(scheme, host, keys[i]);
    }
    MapAllSpec(urls, KeyOfUrl);
    assert KeysOf(urls).value == keys;
  }

  /** The outer loop: the keys of every record of the batch, in order. */
  method GatherKeys(records: seq<StreamRecord>) returns (r: Option<seq<string>>)
    ensures r == KeysOf(BatchUrls(records))
  {
    var keys: seq<string> := [];
    var i := 0;
    while i < |records|
      invariant 0 <= i <= |records|
      invariant KeysOf(BatchUrls(records[..i])) == Some(keys)
    {
      assert records[..i + 1][..i] == records[..i];
      assert BatchUrls(records[..i + 1]) == BatchUrls(records[..i]) + ItemUrls(RemovedVariants(records[i]));
      r := GatherItemKeys(BatchUrls(records[..i]), keys, RemovedVariants(records[i]));
      if r.None? {
        assert records == records[..i + 1] + records[i + 1..];
        BatchUrlsAppend(records[..i + 1], records[i + 1..]);
        MapAllAppendNone(BatchUrls(records[..i + 1]), BatchUrls(records[i + 1..]), KeyOfUrl);
        return;
      }
      keys := r.value;
      i := i + 1;
    }
    assert records[..i] == records;
    return Some(keys);
  }

  /** The inner loop: the keys of one record's variant entries, appended to those gathered so far. */
  method GatherItemKeys(ghost before: seq<string>, keys: seq<string>, items: seq<Attr>) returns (r: Option<seq<string>>)
    requires KeysOf(before) == Some(keys)
    ensures r == KeysOf(before + ItemUrls(items))
  {
    var acc := keys;
    var j := 0;
    assert before + ItemUrls(items[..0]) == before;
    while j < |items|
      invariant 0 <= j <= |items|
      invariant KeysOf(before + ItemUrls(items[..j])) == Some(acc)
    {
      var url := ItemUrl(items[j]);
      GatherStep(before, items, j, acc, KeyOfUrl);
      if url.Some? {
        var key := KeyOfUrl(url.value);
        if key.None? {
          return None;
        }
        acc := acc + [key.value];
      }
      j := j + 1;
    }
    assert items[..j] == items;
    return Some(acc);
  }

  /** One step of the inner loop, for any way `keyOf` of reading a key from a URL. */
  lemma GatherStep(before: seq<string>, items: seq<Attr>, j: nat, acc: seq<string>, keyOf: string -> Option<string>)
    requires j < |items| && MapAll(before + ItemUrls(items[..j]), keyOf) == Some(acc)
    ensures var u := ItemUrl(items[j]);
      var next := MapAll(before + ItemUrls(items[..j + 1]), keyOf);
      (u.None? ==> next == Some(acc)) &&
      (u.Some? && keyOf(u.value).Some? ==> next == Some(acc + [keyOf(u.value).value])) &&
      (u.Some? && keyOf(u.value).None? ==> MapAll(before + ItemUrls(items), keyOf) == None)
  {
    var urls := before + ItemUrls(items[..j]);
    ItemUrlsSnoc(items, j);
    match ItemUrl(items[j])
    case None =>
      assert before + ItemUrls(items[..j + 1]) == urls;
    case Some(u) =>
      assert before + ItemUrls(items[..j + 1]) == urls + [u];
      MapAllSnoc(urls, u, keyOf);
      if keyOf(u).None? {
        GatherFails(before, items, j + 1, keyOf);
      }
  }

  lemma ItemUrlsSnoc(items: seq<Attr>, j: nat)
    requires j < |items|
    ensures ItemUrls(items[..j + 1]) == ItemUrls(items[..j]) + (match ItemUrl(items[j]) case Some(u) => [u] case None => [])
  {
    assert items[..j + 1][..j] == items[..j];
  }

  /** Once a prefix of the entries fails to give its keys, all of them do. */
  lemma GatherFails(before: seq<string>, items: seq<Attr>, j: nat, keyOf: string -> Option<string>)
    requires j <= |items|
    requires MapAll(before + ItemUrls(items[..j]), keyOf) == None
    ensures MapAll(before + ItemUrls(items), keyOf) == None
  {
    ItemUrlsSplit(items, j);
    MapAllAppendNone3(before, ItemUrls(items[..j]), ItemUrls(items[j..]), keyOf);
  }

  /** The handler: gather every key of the batch, then one bulk delete, or none. */
  method Handler(records: seq<StreamRecord>, store: ObjectStore) returns (r: Outcome)
    modifies store
    ensures var h := Removed(records, store.available, store.denied);
      r == h.outcome && store.log == old(store.log) + h.ops &&
      store.objects == Apply(old(store.objects), h.ops, store.denied)
  {
    var keys := GatherKeys(records);
    if keys.None? {
      return Thrown("TypeError: Invalid URL");
    }
    if keys.value == [] {
      return Response(200, NoFiles);
    }
    var report := store.DeleteMany(keys.value);
    if report.Failure? {
      return Response(500, DeleteError(report.error));
    }
    return Response(200, DeletedFiles(report.value.deleted, report.value.errors));
  }
}
