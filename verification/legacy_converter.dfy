/**
 * The earlier converter, kept beside the current one: its stream record
 * names the upload by a JSON object `{"bucket": ..., "key": ...}` stored in
 * the record's partition key, and it writes one JPEG per selected size next
 * to the upload as `{directory}/{base}_{size}.jpg`. It copies no original,
 * deletes nothing and writes no table item.
 *
 * JSON parsing is the parameter `parse` (`None` when the text is not
 * JSON); the store passed in stands for the bucket the locator names.
 */
module LegacyConverter {
  import opened Wrappers
  import opened Text
  import opened Records
  import opened Stores
  import opened PosixPath
  import ImageConverter

  /** The JSON values the locator can parse to. */
  datatype Json = JString(s: string) | JObject(fields: map<string, Json>) | JOther

  datatype Locator = Locator(bucket: string, key: string)

  datatype LegacyError =
    | NoRecord
    | MissingAttribute(name: string)
    | BadJson
    | NotAnObject
    | InvalidParameter(name: string)
    | GetFailed(reason: string)
    | Undecodable
    | PutRefused(key: string)

  /**
   * The first record's `userid-imageid` key attribute, parsed as JSON; its
   * `bucket` and then its `key` member are read, and each must be a string.
   */
  function LocatorOf(records: seq<StreamRecord>, parse: string -> Option<Json>): (r: Result<Locator, LegacyError>)
    ensures r.Success? ==> records != [] && StringAttr(records[0].keys, "userid-imageid").Some?
  {
    if records == [] then Failure(NoRecord)
    else match StringAttr(records[0].keys, "userid-imageid")
      case None => Failure(MissingAttribute("userid-imageid"))
      case Some(raw) =>
        match parse(raw)
        case None => Failure(BadJson)
        case Some(JObject(fields)) =>
          if "bucket" !in fields then Failure(MissingAttribute("bucket"))
          else if "key" !in fields then Failure(MissingAttribute("key"))
          else if !fields["bucket"].JString? then Failure(InvalidParameter("Bucket"))
          else if !fields["key"].JString? then Failure(InvalidParameter("Key"))
          else Success(Locator(fields["bucket"].s, fields["key"].s))
        case Some(_) => Failure(NotAnObject)
  }

  /** A record whose key attribute parses to `{"bucket": b, "key": k}` names exactly that upload. */
  lemma LocatorOfObject(
    records: seq<StreamRecord>, parse: string -> Option<Json>, raw: string, b: string, k: string, extra: map<string, Json>)
    requires records != [] && records[0].keys == map["userid-imageid" := S(raw)]
    requires parse(raw) == Some(JObject(extra["bucket" := JString(b)]["key" := JString(k)]))
    ensures LocatorOf(records, parse) == Success(Locator(b, k))
  {
    var fields := extra["bucket" := JString(b)]["key" := JString(k)];
    assert "bucket" in fields && fields["bucket"] == JString(b);
    assert "key" in fields && fields["key"] == JString(k);
  }

  /** `{directory}/{base}_{size}.jpg`: the rendition lies beside the upload. */
  function LegacyKey(key: string, size: nat): string
  {
    Dirname(key) + "/" + LegacyName(key, size)
  }

  /** `{base}_{size}.jpg`, where `base` is the upload's file name without its extension. */
  function LegacyName(key: string, size: nat): string
  {
    SplitExt(Basename(key)).0 + "_" + NatToString(size) + ".jpg"
  }

  function LegacyPut(key: string, size: nat, r: ImageConverter.Rendition): StoreOp
  {
    PutObject(LegacyKey(key, size), Blob(r.data, Some("image/jpeg"), ImageConverter.CacheControl))
  }

  /** How the rendition of one size is produced and where it goes. */
  function LegacyMaker(key: string, render: nat -> ImageConverter.Rendition): nat -> StoreOp
  {
    (size: nat) => LegacyPut(key, size, render(size))
  }

  /** The write `make` produces for each size, in the order of `sizes`. */
  function Puts(make: nat -> StoreOp, sizes: seq<nat>): (ops: seq<StoreOp>)
    ensures |ops| == |sizes|
  {
    seq(|sizes|, i requires 0 <= i < |sizes| => make(sizes[i]))
  }

  predicate AllPuts(ops: seq<StoreOp>)
  {
    forall i :: 0 <= i < |ops| ==> ops[i].PutObject?
  }

  /** The number of leading writes the store accepts. */
  function Admitted(ops: seq<StoreOp>, denied: set<string>): (k: nat)
    requires AllPuts(ops)
    ensures k <= |ops|
    ensures forall j :: 0 <= j < k ==> ops[j].key !in denied
    ensures k < |ops| ==> ops[k].key in denied
  {
    if ops == [] || ops[0].key in denied then 0 else 1 + Admitted(ops[1..], denied)
  }

  lemma {:induction false} AdmittedStopsAt(ops: seq<StoreOp>, denied: set<string>, k: nat)
    requires AllPuts(ops) && k <= |ops|
    requires forall j :: 0 <= j < k ==> ops[j].key !in denied
    requires k < |ops| ==> ops[k].key in denied
    ensures Admitted(ops, denied) == k
    decreases k
  {
    if k > 0 {
      AdmittedStopsAt(ops[1..], denied, k - 1);
    }
  }

  /** The outcome of one legacy conversion and the writes the store accepted. */
  datatype LegacyRun = LegacyRun(error: Option<LegacyError>, ops: seq<StoreOp>)

  /** Writing `ops` in order until the store refuses one. */
  function PutRun(ops: seq<StoreOp>, denied: set<string>): (run: LegacyRun)
    requires AllPuts(ops)
    ensures run.error.None? <==> run.ops == ops
    ensures run.error.Some? ==> run.error.value.PutRefused? && run.error.value.key in denied
    ensures |run.ops| <= |ops| && run.ops == ops[..|run.ops|]
  {
    var k := Admitted(ops, denied);
    if k < |ops| then LegacyRun(Some(PutRefused(ops[k].key)), ops[..k]) else LegacyRun(None, ops)
  }

  function Legacy(
    key: string, objects: map<string, Blob>, available: bool, denied: set<string>,
    facts: Option<ImageConverter.ImageFacts>, render: nat -> ImageConverter.Rendition): LegacyRun
  {
    if !available then LegacyRun(Some(GetFailed("ServiceUnavailable")), [])
    else if key !in objects then LegacyRun(Some(GetFailed("NoSuchKey")), [])
    else if facts.None? then LegacyRun(Some(Undecodable), [])
    else
      var ops := Puts(LegacyMaker(key, render), ImageConverter.SelectSizes(facts.value.width, facts.value.height));
      LegacyPutsAll(key, render, ImageConverter.SelectSizes(facts.value.width, facts.value.height));
      PutRun(ops, denied)
  }

  lemma LegacyPutsAll(key: string, render: nat -> ImageConverter.Rendition, sizes: seq<nat>)
    ensures AllPuts(Puts(LegacyMaker(key, render), sizes))
  {
  }

  /** The renditions of two different sizes never share a key. */
  lemma LegacyKeysDistinct(key: string, a: nat, b: nat)
    requires a != b
    ensures LegacyKey(key, a) != LegacyKey(key, b)
  {
    var d := Dirname(key) + "/";
    var p := SplitExt(Basename(key)).0 + "_";
    assert LegacyName(key, a) == p + (NatToString(a) + ".jpg");
    assert LegacyName(key, b) == p + (NatToString(b) + ".jpg");
    ImageConverter.PrefixCancel(d, LegacyName(key, a), LegacyName(key, b));
    ImageConverter.PrefixCancel(p, NatToString(a) + ".jpg", NatToString(b) + ".jpg");
    ImageConverter.SuffixCancel(NatToString(a), NatToString(b), ".jpg");
    NatToStringInjective(a, b);
  }

  lemma BasenameOfJoin(d: string, b: string)
    requires '/' !in b
    ensures Basename(d + "/" + b) == b
  {
    var p := d + "/" + b;
    assert p[|d|] == '/';
    assert forall k :: |d| < k < |p| ==> p[k] == b[k - |d| - 1];
    assert LastIndexOf(p, '/') == |d|;
    assert p[|d| + 1..] == b;
  }

  /**
   * A name `base_...` is never the name `base + ext` it came from, since
   * an extension is empty or starts with a dot.
   */
  lemma RenamedIsNotUpload(key: string, dir: string, base: string, ext: string, tail: string)
    requires Basename(key) == base + ext
    requires ext == "" || ext[0] == '.'
    requires '/' !in tail && |base| < |tail| && tail[..|base|] == base && tail[|base|] == '_'
    ensures dir + "/" + tail != key
  {
    BasenameOfJoin(dir, tail);
    if ext != "" {
      assert (base + ext)[|base|] == '.';
    }
    assert tail != base + ext;
  }

  /** No rendition is written over the upload itself. */
  lemma LegacyKeyIsNotUpload(key: string, size: nat)
    ensures LegacyKey(key, size) != key
  {
    var (base, ext) := SplitExt(Basename(key));
    var digits := NatToString(size);
    SlashFreePrefix(base, ext);
    assert '/' !in digits by {
      assert forall k :: 0 <= k < |digits| ==> IsDigit(digits[k]);
    }
    var tail := base + "_" + digits + ".jpg";
    RenamedTail(base, digits);
    assert LegacyName(key, size) == tail;
    RenamedIsNotUpload(key, Dirname(key), base, ext, tail);
  }

  lemma SlashFreePrefix(base: string, ext: string)
    requires '/' !in base + ext
    ensures '/' !in base
  {
    assert forall k :: 0 <= k < |base| ==> base[k] == (base + ext)[k];
  }

  /** `base_digits.jpg` starts with `base` and an underscore and, for slash-free parts, holds no slash. */
  lemma RenamedTail(base: string, digits: string)
    requires '/' !in base && '/' !in digits
    ensures var tail := base + "_" + digits + ".jpg";
      '/' !in tail && |base| < |tail| && tail[..|base|] == base && tail[|base|] == '_'
  {
    var tail := base + "_" + digits + ".jpg";
    assert tail == base + ("_" + digits + ".jpg");
  }

  /** Writes to other keys leave an object where it was. */
  lemma {:induction false} PutsKeepOthers(objects: map<string, Blob>, ops: seq<StoreOp>, key: string, denied: set<string>)
    requires key in objects
    requires forall i :: 0 <= i < |ops| ==> ops[i].PutObject? && ops[i].key != key
    ensures key in Apply(objects, ops, denied) && Apply(objects, ops, denied)[key] == objects[key]
    decreases |ops|
  {
    if ops != [] {
      var n := |ops| - 1;
      PutsKeepOthers(objects, ops[..n], key, denied);
      assert ops == ops[..n] + [ops[n]];
      ApplyOne(objects, ops[..n], ops[n], denied);
    }
  }

  /**
   * The legacy converter never removes or replaces the upload: whatever
   * it writes, the upload is still stored, unchanged, afterwards.
   */
  lemma LegacyKeepsUpload(
    key: string, objects: map<string, Blob>, available: bool, denied: set<string>,
    facts: Option<ImageConverter.ImageFacts>, render: nat -> ImageConverter.Rendition)
    requires key in objects
    ensures var run := Legacy(key, objects, available, denied, facts, render);
      key in Apply(objects, run.ops, denied) && Apply(objects, run.ops, denied)[key] == objects[key]
  {
    var run := Legacy(key, objects, available, denied, facts, render);
    if available && facts.Some? {
      var sizes := ImageConverter.SelectSizes(facts.value.width, facts.value.height);
      var make := LegacyMaker(key, render);
      var ops := Puts(make, sizes);
      LegacyPutsAll(key, render, sizes);
      forall i | 0 <= i < |ops|
        ensures ops[i].PutObject? && ops[i].key != key
      {
        assert ops[i] == LegacyPut(key, sizes[i], render(sizes[i]));
        LegacyKeyIsNotUpload(key, sizes[i]);
      }
      assert run == PutRun(ops, denied);
      assert run.ops == ops[..|run.ops|];
      PutsKeepOthers(objects, run.ops, key, denied);
    }
  }

  /** Puts to pairwise different keys each leave their own object behind. */
  lemma {:induction false} DistinctPutsStored(objects: map<string, Blob>, ops: seq<StoreOp>, denied: set<string>)
    requires AllPuts(ops)
    requires forall i, j :: 0 <= i < j < |ops| ==> ops[i].key != ops[j].key
    requires forall i :: 0 <= i < |ops| ==> ops[i].key !in denied
    ensures var after := Apply(objects, ops, denied);
      forall i :: 0 <= i < |ops| ==> ops[i].key in after && after[ops[i].key] == ops[i].blob
    decreases |ops|
  {
    if ops != [] {
      var n := |ops| - 1;
      DistinctPutsStored(objects, ops[..n], denied);
      assert ops == ops[..n] + [ops[n]];
      ApplyOne(objects, ops[..n], ops[n], denied);
    }
  }

  /** Every rendition of a complete run is stored under its own key. */
  lemma LegacyStoresEveryRendition(
    key: string, objects: map<string, Blob>, denied: set<string>,
    f: ImageConverter.ImageFacts, render: nat -> ImageConverter.Rendition)
    requires key in objects
    requires Legacy(key, objects, true, denied, Some(f), render).error.None?
    ensures var sizes := ImageConverter.SelectSizes(f.width, f.height);
      var after := Apply(objects, Legacy(key, objects, true, denied, Some(f), render).ops, denied);
      forall i :: 0 <= i < |sizes| ==>
        LegacyKey(key, sizes[i]) in after && after[LegacyKey(key, sizes[i])].data == render(sizes[i]).data
  {
    var sizes := ImageConverter.SelectSizes(f.width, f.height);
    var ops := Puts(LegacyMaker(key, render), sizes);
    LegacyPutsAll(key, render, sizes);
    assert Legacy(key, objects, true, denied, Some(f), render) == PutRun(ops, denied);
    forall i | 0 <= i < |ops|
      ensures ops[i] == LegacyPut(key, sizes[i], render(sizes[i]))
    {
    }
    forall i, j | 0 <= i < j < |ops|
      ensures ops[i].key != ops[j].key
    {
      ImageConverter.SizesFacts();
      LegacyKeysDistinct(key, sizes[i], sizes[j]);
    }
    DistinctPutsStored(objects, ops, denied);
  }

  /** `process_image` of the legacy converter: one JPEG per selected size, in order, stopping at the first refusal. */
  method ProcessLegacy(
    key: string, store: ObjectStore,
    facts: Option<ImageConverter.ImageFacts>, render: nat -> ImageConverter.Rendition)
    returns (error: Option<LegacyError>)
    modifies store
    ensures var run := Legacy(key, old(store.objects), store.available, store.denied, facts, render);
      error == run.error && store.log == old(store.log) + run.ops &&
      store.objects == Apply(old(store.objects), run.ops, store.denied)
  {
    var got := store.Get(key);
    if got.Failure? {
      return Some(GetFailed(got.error));
    }
    if facts.None? {
      return Some(Undecodable);
    }
    var sizes := ImageConverter.SelectSizes(facts.value.width, facts.value.height);
    LegacyPutsAll(key, render, sizes);
    error := PutEach(store, LegacyMaker(key, render), sizes);
  }

  /** The loop of `process_image`: the write for each size in turn, stopping at the first refusal. */
  method PutEach(store: ObjectStore, make: nat -> StoreOp, sizes: seq<nat>) returns (error: Option<LegacyError>)
    requires store.available && AllPuts(Puts(make, sizes))
    modifies store
    ensures var run := PutRun(Puts(make, sizes), store.denied);
      error == run.error && store.log == old(store.log) + run.ops &&
      store.objects == Apply(old(store.objects), run.ops, store.denied)
  {
    ghost var ops := Puts(make, sizes);
    var i := 0;
    while i < |sizes|
      invariant 0 <= i <= |sizes|
      invariant store.log == old(store.log) + ops[..i]
      invariant store.objects == Apply(old(store.objects), ops[..i], store.denied)
      invariant forall j :: 0 <= j < i ==> ops[j].key !in store.denied
    {
      var op := make(sizes[i]);
      assert op == ops[i];
      var ok := store.Put(op.key, op.blob);
      if !ok {
        AdmittedStopsAt(ops, store.denied, i);
        return Some(PutRefused(op.key));
      }
      assert ops[..i + 1] == ops[..i] + [op];
      ApplyOne(old(store.objects), ops[..i], op, store.denied);
      i := i + 1;
    }
    assert ops[..i] == ops;
    AdmittedStopsAt(ops, store.denied, i);
    return None;
  }

  /** `lambda_handler` of the legacy converter: locate the upload, convert it, answer 200. */
  method Handler(
    records: seq<StreamRecord>, parse: string -> Option<Json>, store: ObjectStore,
    facts: Option<ImageConverter.ImageFacts>, render: nat -> ImageConverter.Rendition)
    returns (r: Result<nat, LegacyError>)
    modifies store
    ensures LocatorOf(records, parse).Failure? ==>
      r == Failure(LocatorOf(records, parse).error) && store.log == old(store.log) && store.objects == old(store.objects)
    ensures LocatorOf(records, parse).Success? ==>
      var run := Legacy(LocatorOf(records, parse).value.key, old(store.objects), store.available, store.denied, facts, render);
      r == (if run.error.Some? then Failure(run.error.value) else Success(200)) &&
      store.log == old(store.log) + run.ops &&
      store.objects == Apply(old(store.objects), run.ops, store.denied)
  {
    var locator := LocatorOf(records, parse);
    if locator.Failure? {
      return Failure(locator.error);
    }
    var error := ProcessLegacy(locator.value.key, store, facts, render);
    if error.Some? {
      return Failure(error.value);
    }
    return Success(200);
  }
}
