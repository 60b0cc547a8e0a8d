/**
 * The upload watcher: for each object-created notification of a batch it
 * decodes the object key, splits it on `/`, derives the user id (segment
 * 1), the image id (segment 2 up to its last `.`) and the composite key,
 * and puts a fresh "processing" item (empty `convertedImageUrls`) into the
 * table, unconditionally. A key with fewer than three segments is skipped;
 * a malformed escape or a failed put throws and ends the batch, leaving
 * the puts already made in place.
 */
module UploadWatcher {
  import opened Wrappers
  import opened Text
  import opened Records
  import opened Stores
  import opened UriDecoding

  /** One notification: `record.s3.bucket.name` and `record.s3.object.key`. */
  datatype S3Record = S3Record(bucket: string, key: string)

  /** Why an invocation throws. */
  datatype WatcherError = MalformedKey(raw: string) | PutFailed(compositeKey: string)

  /**
   * `name.substring(0, name.lastIndexOf(".")) || name`: the name without
   * its last extension, unless that leaves nothing (no dot, or only a
   * leading dot), in which case the whole name.
   */
  function ImageIdOf(fileName: string): (id: string)
    ensures StartsWith(fileName, id)
    ensures id == fileName
         || (id != "" && fileName[|id|] == '.'
             && forall k :: |id| < k < |fileName| ==> fileName[k] != '.')
    ensures id == fileName <==> LastIndexOf(fileName, '.') <= 0
  {
    var dot := LastIndexOf(fileName, '.');
    var stem := if dot < 0 then "" else fileName[..dot];
    if stem != "" then stem else fileName
  }

  /** Every way a file name can look, and the image id it gets. */
  lemma ImageIdOfCases(stem: string, ext: string)
    requires '.' !in ext
    ensures '.' !in stem ==> ImageIdOf(stem) == stem
    ensures stem != "" ==> ImageIdOf(stem + "." + ext) == stem
    ensures ImageIdOf("." + ext) == "." + ext
  {
    var f := stem + "." + ext;
    if '.' !in stem {
      assert LastIndexOf(stem, '.') == -1;
    }
    assert f[|stem|] == '.';
    assert forall k :: |stem| < k < |f| ==> f[k] == ext[k - |stem| - 1];
    assert LastIndexOf(f, '.') == |stem|;
    assert f[..|stem|] == stem;
    var g := "." + ext;
    assert g[0] == '.';
    assert forall k :: 0 < k < |g| ==> g[k] == ext[k - 1] && g[k] != '.';
    assert LastIndexOf(g, '.') == 0;
  }

  /**
   * The item a decoded key yields: user id from segment 1, image id from
   * segment 2, later segments ignored; None for fewer than three segments.
   */
  function ItemForKey(key: string): (r: Option<Item>)
    ensures r.Some? ==> r.value.tmpImgLocation == key && r.value.convertedImageUrls == []
    ensures r.Some? ==> r.value.compositeKey == CompositeKey(r.value.userId, r.value.imageId) && '/' !in r.value.userId
  {
    var parts := Split(key, '/');
    if |parts| < 3 then None
    else
      var userId := parts[1];
      var imageId := ImageIdOf(parts[2]);
      Some(Item(CompositeKey(userId, imageId), userId, imageId, key, []))
  }

  /** A key with fewer than two slashes yields no item. */
  lemma ShortKeyYieldsNoItem(key: string)
    ensures ItemForKey(key).None? <==> Count(key, '/') < 2
  {
    SplitLength(key, '/');
  }

  /**
   * For `prefix/userId/fileName[/more]`, the item is keyed
   * `userId-imageId`, points back at the decoded key and has no variants.
   */
  lemma ItemForKeyOfPath(prefix: string, userId: string, fileName: string, more: string)
    requires '/' !in prefix && '/' !in userId && '/' !in fileName
    requires more == "" || more[0] == '/'
    ensures var key := prefix + "/" + userId + "/" + fileName + more;
      ItemForKey(key) == Some(Item(CompositeKey(userId, ImageIdOf(fileName)), userId,
                                   ImageIdOf(fileName), key, []))
  {
    var key := prefix + "/" + userId + "/" + fileName + more;
    assert key == prefix + ['/'] + (userId + ['/'] + (fileName + more));
    SplitCons(prefix, userId + ['/'] + (fileName + more), '/');
    SplitCons(userId, fileName + more, '/');
    if more == "" {
      assert fileName + more == fileName;
      SplitNoSep(fileName, '/');
    } else {
      assert fileName + more == fileName + ['/'] + more[1..];
      SplitCons(fileName, more[1..], '/');
    }
  }

  /** What a batch leaves behind: the outcome and the table's items. */
  datatype RunResult = RunResult(outcome: Result<nat, WatcherError>, items: map<string, Item>)

  /**
   * The handler's effect on a batch, record by record. A batch that gets
   * through answers 200; no item disappears, and every item that is new or
   * replaced is a fresh one with an empty variant list.
   */
  function Process(records: seq<S3Record>, items: map<string, Item>, denied: set<string>): (r: RunResult)
    ensures r.outcome.Success? ==> r.outcome.value == 200
    ensures items.Keys <= r.items.Keys
    ensures forall k :: k in r.items ==> (k in items && r.items[k] == items[k]) || r.items[k].convertedImageUrls == []
    decreases |records|
  {
    if records == [] then RunResult(Success(200), items)
    else
      match DecodeKey(records[0].key)
      case None => RunResult(Failure(MalformedKey(records[0].key)), items)
      case Some(key) =>
        match ItemForKey(key)
        case None => Process(records[1..], items, denied)
        case Some(item) =>
          if item.compositeKey in denied then RunResult(Failure(PutFailed(item.compositeKey)), items)
          else Process(records[1..], items[item.compositeKey := item], denied)
  }

  /** `handler(event)`: one put per well-formed record, in batch order. */
  method Handler(records: seq<S3Record>, table: Table) returns (r: Result<nat, WatcherError>)
    modifies table
    ensures RunResult(r, table.items) == Process(records, old(table.items), table.denied)
  {
    var i := 0;
    while i < |records|
      invariant 0 <= i <= |records|
      invariant Process(records, old(table.items), table.denied) == Process(records[i..], table.items, table.denied)
    {
      assert records[i..][0] == records[i] && records[i..][1..] == records[i + 1..];
      var raw := records[i].key;
      var decoded := DecodeKey(raw);
      if decoded.None? {
        return Failure(MalformedKey(raw));
      }
      var key := decoded.value;
      var keyParts := Split(key, '/');
      if |keyParts| < 3 {
        i := i + 1;
        continue;
      }
      var userId := keyParts[1];
      var imageFileName := keyParts[2];
      var imageId := ImageIdOf(imageFileName);
      var item := Item(CompositeKey(userId, imageId), userId, imageId, key, []);
      var ok := table.Put(item);
      if !ok {
        return Failure(PutFailed(item.compositeKey));
      }
      i := i + 1;
    }
    return Success(200);
  }

  // ---------------------------------------------------------------------
  // The batch as a whole
  // ---------------------------------------------------------------------

  predicate AllDecode(records: seq<S3Record>)
  {
    forall i :: 0 <= i < |records| ==> DecodeKey(records[i].key).Some?
  }

  /** The items a batch of decodable records writes, in order. */
  function Written(records: seq<S3Record>): seq<Item>
    requires AllDecode(records)
    decreases |records|
  {
    if records == [] then []
    else
      var rest := Written(records[1..]);
      match ItemForKey(DecodeKey(records[0].key).value)
      case None => rest
      case Some(item) => [item] + rest
  }

  /** Putting items one after the other. */
  function PutAll(items: map<string, Item>, puts: seq<Item>): map<string, Item>
    decreases |puts|
  {
    if puts == [] then items else PutAll(items[puts[0].compositeKey := puts[0]], puts[1..])
  }

  predicate NoneDenied(puts: seq<Item>, denied: set<string>)
  {
    forall i :: 0 <= i < |puts| ==> puts[i].compositeKey !in denied
  }

  lemma {:induction false} WrittenAppend(a: seq<S3Record>, b: seq<S3Record>)
    requires AllDecode(a) && AllDecode(b)
    ensures AllDecode(a + b) && Written(a + b) == Written(a) + Written(b)
    decreases |a|
  {
    if a != [] {
      assert (a + b)[0] == a[0] && (a + b)[1..] == a[1..] + b;
      WrittenAppend(a[1..], b);
    } else {
      assert a + b == b;
    }
  }

  lemma {:induction false} PutAllAppend(m: map<string, Item>, a: seq<Item>, b: seq<Item>)
    ensures PutAll(m, a + b) == PutAll(PutAll(m, a), b)
    decreases |a|
  {
    if a != [] {
      assert (a + b)[0] == a[0] && (a + b)[1..] == a[1..] + b;
      PutAllAppend(m[a[0].compositeKey := a[0]], a[1..], b);
    } else {
      assert a + b == b;
    }
  }

  /**
   * Once a prefix of the batch has gone through without throwing, the
   * table holds exactly its puts, in order, and the rest of the batch
   * continues from there.
   */
  lemma {:induction false} ProcessPrefix(records: seq<S3Record>, j: nat, m: map<string, Item>, denied: set<string>)
    requires j <= |records| && AllDecode(records[..j])
    requires NoneDenied(Written(records[..j]), denied)
    ensures Process(records, m, denied) == Process(records[j..], PutAll(m, Written(records[..j])), denied)
    decreases j
  {
    if j == 0 {
      assert records[..0] == [] && records[0..] == records;
    } else {
      WrittenSnoc(records, j);
      var a := Written(records[..j - 1]);
      var w := Written([records[j - 1]]);
      NoneDeniedSplit(a, w, denied);
      ProcessPrefix(records, j - 1, m, denied);
      ProcessSuffix(records, j, PutAll(m, a), denied);
      PutAllAppend(m, a, w);
    }
  }

  lemma ProcessSuffix(records: seq<S3Record>, j: nat, before: map<string, Item>, denied: set<string>)
    requires 0 < j <= |records| && AllDecode([records[j - 1]]) && NoneDenied(Written([records[j - 1]]), denied)
    ensures Process(records[j - 1..], before, denied) == Process(records[j..], PutAll(before, Written([records[j - 1]])), denied)
  {
    assert records[j - 1..] == [records[j - 1]] + records[j..];
    ProcessOne(records[j - 1], records[j..], before, denied);
  }

  lemma WrittenSnoc(records: seq<S3Record>, j: nat)
    requires 0 < j <= |records| && AllDecode(records[..j])
    ensures AllDecode(records[..j - 1]) && AllDecode([records[j - 1]])
    ensures Written(records[..j]) == Written(records[..j - 1]) + Written([records[j - 1]])
  {
    var a := records[..j - 1];
    var b := [records[j - 1]];
    assert records[..j] == a + b;
    assert forall i :: 0 <= i < |a| ==> a[i] == records[..j][i];
    assert b[0] == records[..j][j - 1];
    WrittenAppend(a, b);
  }

  lemma NoneDeniedSplit(a: seq<Item>, b: seq<Item>, denied: set<string>)
    requires NoneDenied(a + b, denied)
    ensures NoneDenied(a, denied) && NoneDenied(b, denied)
  {
    assert forall i :: 0 <= i < |a| ==> (a + b)[i] == a[i];
    assert forall i :: 0 <= i < |b| ==> (a + b)[|a| + i] == b[i];
  }

  /** One decodable, unrefused record moves the batch on by its own puts. */
  lemma ProcessOne(r: S3Record, rest: seq<S3Record>, before: map<string, Item>, denied: set<string>)
    requires AllDecode([r]) && NoneDenied(Written([r]), denied)
    ensures Process([r] + rest, before, denied) == Process(rest, PutAll(before, Written([r])), denied)
  {
    assert ([r] + rest)[0] == r && ([r] + rest)[1..] == rest;
    assert [r][0] == r && [r][1..] == [];
    match ItemForKey(DecodeKey(r.key).value)
    case None =>
      assert Written([r]) == [];
    case Some(item) =>
      assert Written([r]) == [item];
      assert [item][0] == item && [item][1..] == [];
  }

  /** A batch that decodes and is not refused ends with 200 and all its puts in order. */
  lemma BatchCompletes(records: seq<S3Record>, m: map<string, Item>, denied: set<string>)
    requires AllDecode(records) && NoneDenied(Written(records), denied)
    ensures Process(records, m, denied) == RunResult(Success(200), PutAll(m, Written(records)))
  {
    assert records[..|records|] == records;
    ProcessPrefix(records, |records|, m, denied);
  }

  /**
   * A malformed escape in record `j` throws: the records before it are
   * written, none after it.
   */
  lemma MalformedKeyAborts(records: seq<S3Record>, j: nat, m: map<string, Item>, denied: set<string>)
    requires j < |records| && AllDecode(records[..j]) && DecodeKey(records[j].key).None?
    requires NoneDenied(Written(records[..j]), denied)
    ensures Process(records, m, denied)
         == RunResult(Failure(MalformedKey(records[j].key)), PutAll(m, Written(records[..j])))
  {
    ProcessPrefix(records, j, m, denied);
    assert records[j..][0] == records[j];
  }

  /** A refused put in record `j` throws: the puts before it stay, none after it. */
  lemma PutFailureAborts(records: seq<S3Record>, j: nat, m: map<string, Item>, denied: set<string>)
    requires j < |records| && AllDecode(records[..j + 1])
    requires NoneDenied(Written(records[..j]), denied)
    requires ItemForKey(DecodeKey(records[j].key).value).Some?
    requires ItemForKey(DecodeKey(records[j].key).value).value.compositeKey in denied
    ensures Process(records, m, denied) == RunResult(
      Failure(PutFailed(ItemForKey(DecodeKey(records[j].key).value).value.compositeKey)),
      PutAll(m, Written(records[..j])))
  {
    assert AllDecode(records[..j]) by {
      assert forall i :: 0 <= i < j ==> records[..j][i] == records[..j + 1][i];
    }
    assert records[..j + 1][j] == records[j];
    ProcessPrefix(records, j, m, denied);
    assert records[j..][0] == records[j];
  }

  /**
   * The last put under a key wins; keys no put touches keep their old item
   * (or stay absent).
   */
  lemma {:induction false} PutAllLastWriterWins(m: map<string, Item>, puts: seq<Item>, k: string)
    ensures (exists i :: 0 <= i < |puts| && puts[i].compositeKey == k) ==>
      k in PutAll(m, puts) && PutAll(m, puts)[k] == puts[LastPut(puts, k)]
    ensures (forall i :: 0 <= i < |puts| ==> puts[i].compositeKey != k) ==>
      (k in PutAll(m, puts) <==> k in m) && (k in m ==> PutAll(m, puts)[k] == m[k])
  {
    if exists i :: 0 <= i < |puts| && puts[i].compositeKey == k {
      PutAllLastWins(m, puts, LastPut(puts, k));
    } else {
      PutAllUntouched(m, puts, k);
    }
  }

  /** A put that no later put overwrites is what the key holds at the end. */
  lemma {:induction false} PutAllLastWins(m: map<string, Item>, puts: seq<Item>, i: nat)
    requires i < |puts|
    requires forall j :: i < j < |puts| ==> puts[j].compositeKey != puts[i].compositeKey
    ensures puts[i].compositeKey in PutAll(m, puts) && PutAll(m, puts)[puts[i].compositeKey] == puts[i]
    decreases |puts|
  {
    var m' := m[puts[0].compositeKey := puts[0]];
    if i == 0 {
      PutAllUntouched(m', puts[1..], puts[0].compositeKey);
    } else {
      PutAllLastWins(m', puts[1..], i - 1);
    }
  }

  /** A key no put touches keeps what it held. */
  lemma {:induction false} PutAllUntouched(m: map<string, Item>, puts: seq<Item>, k: string)
    requires forall i :: 0 <= i < |puts| ==> puts[i].compositeKey != k
    ensures k in PutAll(m, puts) <==> k in m
    ensures k in m ==> PutAll(m, puts)[k] == m[k]
    decreases |puts|
  {
    if puts != [] {
      PutAllUntouched(m[puts[0].compositeKey := puts[0]], puts[1..], k);
    }
  }

  /** The index of the last put under key `k`. */
  ghost function LastPut(puts: seq<Item>, k: string): (i: nat)
    requires exists i :: 0 <= i < |puts| && puts[i].compositeKey == k
    ensures i < |puts| && puts[i].compositeKey == k
    ensures forall j :: i < j < |puts| ==> puts[j].compositeKey != k
    decreases |puts|
  {
    if puts[|puts| - 1].compositeKey == k then |puts| - 1
    else
      var w :| 0 <= w < |puts| && puts[w].compositeKey == k;
      assert puts[..|puts| - 1][w].compositeKey == k;
      LastPut(puts[..|puts| - 1], k)
  }
}
