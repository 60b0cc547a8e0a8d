/**
 * The two external stores the handlers write to, as objects whose state
 * the handlers update in place: the ingestion table (items by composite
 * key) and the object-store bucket (blobs by key, plus the log of the
 * writes it has accepted, in order).
 *
 * Store failures are modelled deterministically: a table put or an object
 * put/delete for a key in `denied` throws, and an object store that is not
 * `available` throws on every call. A bulk delete reports denied keys as
 * per-key errors instead of throwing.
 */
module Stores {
  import opened Wrappers
  import opened Records

  class Table {
    var items: map<string, Item>
    const denied: set<string>

    constructor (items0: map<string, Item>, denied0: set<string>)
      ensures items == items0 && denied == denied0
    {
      items := items0;
      denied := denied0;
    }

    /** Unconditional put: overwrites any item under the same key. */
    method Put(item: Item) returns (ok: bool)
      modifies this
      ensures ok == (item.compositeKey !in denied)
      ensures items == if ok then old(items)[item.compositeKey := item] else old(items)
    {
      ok := item.compositeKey !in denied;
      if ok {
        items := items[item.compositeKey := item];
      }
    }
  }

  /** An object: its bytes and the headers the handlers set. */
  datatype Blob = Blob(data: seq<bv8>, contentType: Option<string>, cacheControl: string)

  /** A write the object store accepted. */
  datatype StoreOp =
    | PutObject(key: string, blob: Blob)
    | DeleteObject(key: string)
    | DeleteObjects(keys: seq<string>)

  /** The per-key outcome of a bulk delete (`Deleted` and `Errors`). */
  datatype DeleteReport = DeleteReport(deleted: seq<string>, errors: seq<string>)

  /** The keys of `keys` the store deletes, and those it reports as errors. */
  function Deletable(keys: seq<string>, denied: set<string>): (r: seq<string>)
    ensures forall k :: k in r <==> k in keys && k !in denied
  {
    if keys == [] then []
    else (if keys[0] in denied then [] else [keys[0]]) + Deletable(keys[1..], denied)
  }

  function Refused(keys: seq<string>, denied: set<string>): (r: seq<string>)
    ensures forall k :: k in r <==> k in keys && k in denied
  {
    if keys == [] then []
    else (if keys[0] in denied then [keys[0]] else []) + Refused(keys[1..], denied)
  }

  /** The bucket contents after the accepted writes `ops`, in order. */
  function Apply(objects: map<string, Blob>, ops: seq<StoreOp>, denied: set<string>): map<string, Blob>
    decreases |ops|
  {
    if ops == [] then objects
    else Step(Apply(objects, ops[..|ops| - 1], denied), ops[|ops| - 1], denied)
  }

  /** The bucket contents after one accepted write. */
  function Step(objects: map<string, Blob>, op: StoreOp, denied: set<string>): map<string, Blob>
  {
    match op
    case PutObject(k, b) => objects[k := b]
    case DeleteObject(k) => objects - {k}
    case DeleteObjects(ks) => objects - set k | k in Deletable(ks, denied)
  }

  /** `Apply` over a log extended by one write is that write applied to the earlier result. */
  lemma ApplyOne(objects: map<string, Blob>, ops: seq<StoreOp>, op: StoreOp, denied: set<string>)
    ensures Apply(objects, ops + [op], denied) ==
      Step(Apply(objects, ops, denied), op, denied)
  {
    assert (ops + [op])[..|ops|] == ops;
  }

  /** `Apply` of a one-write log is that write. */
  lemma ApplySingle(objects: map<string, Blob>, op: StoreOp, denied: set<string>)
    ensures Apply(objects, [op], denied) == Step(objects, op, denied)
  {
    ApplyOne(objects, [], op, denied);
    assert [] + [op] == [op];
  }

  /** Applying two logs one after the other is applying their concatenation. */
  lemma {:induction false} ApplyAppend(objects: map<string, Blob>, a: seq<StoreOp>, b: seq<StoreOp>, denied: set<string>)
    ensures Apply(objects, a + b, denied) == Apply(Apply(objects, a, denied), b, denied)
    decreases |b|
  {
    if b == [] {
      assert a + b == a;
    } else {
      var n := |b| - 1;
      ApplyAppend(objects, a, b[..n], denied);
      assert a + b == (a + b[..n]) + [b[n]];
      assert b == b[..n] + [b[n]];
      ApplyOne(objects, a + b[..n], b[n], denied);
      ApplyOne(Apply(objects, a, denied), b[..n], b[n], denied);
    }
  }

  /**
   * The bucket: its objects and the log of the writes it accepted. Each
   * write updates the objects exactly as `Apply` of that write does.
   */
  class ObjectStore {
    var objects: map<string, Blob>
    var log: seq<StoreOp>
    const denied: set<string>
    const available: bool

    constructor (objects0: map<string, Blob>, denied0: set<string>, available0: bool)
      ensures objects == objects0 && log == []
      ensures denied == denied0 && available == available0
    {
      objects := objects0;
      log := [];
      denied := denied0;
      available := available0;
    }

    /** `get_object`: the blob, or the error the store answers with. */
    method Get(key: string) returns (r: Result<Blob, string>)
      ensures !available ==> r == Failure("ServiceUnavailable")
      ensures available && key !in objects ==> r == Failure("NoSuchKey")
      ensures available && key in objects ==> r == Success(objects[key])
    {
      if !available {
        r := Failure("ServiceUnavailable");
      } else if key in objects {
        r := Success(objects[key]);
      } else {
        r := Failure("NoSuchKey");
      }
    }

    /** `put_object`: stores the blob under the key, replacing any old one. */
    method Put(key: string, blob: Blob) returns (ok: bool)
      modifies this
      ensures ok == (available && key !in denied)
      ensures log == if ok then old(log) + [PutObject(key, blob)] else old(log)
      ensures objects == if ok then old(objects)[key := blob] else old(objects)
    {
      ok := available && key !in denied;
      if ok {
        objects := objects[key := blob];
        log := log + [PutObject(key, blob)];
      }
    }

    /** `delete_object`: removes the key; deleting an absent key succeeds. */
    method Delete(key: string) returns (ok: bool)
      modifies this
      ensures ok == (available && key !in denied)
      ensures log == if ok then old(log) + [DeleteObject(key)] else old(log)
      ensures objects == if ok then old(objects) - {key} else old(objects)
    {
      ok := available && key !in denied;
      if ok {
        objects := objects - {key};
        log := log + [DeleteObject(key)];
      }
    }

    /**
     * `DeleteObjects`: one request for all keys; denied keys come back as
     * per-key errors, every other key is deleted.
     */
    method DeleteMany(keys: seq<string>) returns (r: Result<DeleteReport, string>)
      modifies this
      ensures r.Success? <==> available
      ensures !available ==> r == Failure("ServiceUnavailable")
      ensures r.Success? ==> r.value == DeleteReport(Deletable(keys, denied), Refused(keys, denied))
      ensures log == if available then old(log) + [DeleteObjects(keys)] else old(log)
      ensures objects == if available then old(objects) - set k | k in Deletable(keys, denied) else old(objects)
    {
      if !available {
        r := Failure("ServiceUnavailable");
      } else {
        objects := objects - set k | k in Deletable(keys, denied);
        log := log + [DeleteObjects(keys)];
        r := Success(DeleteReport(Deletable(keys, denied), Refused(keys, denied)));
      }
    }
  }
}
