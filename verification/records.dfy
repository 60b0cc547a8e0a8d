/**
 * The ingestion table's item, the variant entries the converter stores in
 * it, and the typed attribute encoding (`S`, `L`, `M`, ...) in which the
 * table's change stream delivers items to the converter and to the
 * delete-image handler.
 */
module Records {
  import opened Wrappers

  /** One entry of `convertedImageUrls`: `{resolution, size, url}`. */
  datatype Variant = Variant(resolution: string, size: string, url: string)

  /**
   * One table item. `compositeKey` is the partition key attribute
   * `"userid-imageid"`; the table maps it to the whole item.
   */
  datatype Item = Item(
    compositeKey: string,
    userId: string,
    imageId: string,
    tmpImgLocation: string,
    convertedImageUrls: seq<Variant>)

  /** `${userId}-${imageId}`, the partition key both writers compute. */
  function CompositeKey(userId: string, imageId: string): string
  {
    userId + "-" + imageId
  }

  /**
   * The composite key does not determine its parts: both parts may
   * contain `-`, so two different images can share one table item.
   */
  lemma CompositeKeyNotInjective()
    ensures exists u1, i1, u2, i2 :: (u1, i1) != (u2, i2) && CompositeKey(u1, i1) == CompositeKey(u2, i2)
  {
    assert CompositeKey("a-b", "c") == "a-b-c" == CompositeKey("a", "b-c");
  }

  /** A table item is "processing" until its variant list is non-empty. */
  predicate Ready(item: Item)
  {
    item.convertedImageUrls != []
  }

  /** The table's typed attribute values as delivered in stream records. */
  datatype Attr =
    | S(s: string)
    | N(n: string)
    | Bool(b: bool)
    | Null
    | L(l: seq<Attr>)
    | M(m: map<string, Attr>)

  /** One change-stream record: the event name and the key, new and old images. */
  datatype StreamRecord = StreamRecord(
    eventName: string,
    keys: map<string, Attr>,
    newImage: Option<map<string, Attr>>,
    oldImage: Option<map<string, Attr>>)

  /** The string held by attribute `name` of a typed image, if it is an `S`. */
  function StringAttr(image: map<string, Attr>, name: string): (r: Option<string>)
    ensures r.Some? <==> name in image && image[name].S?
    ensures r.Some? ==> image[name] == S(r.value)
  {
    if name in image && image[name].S? then Some(image[name].s) else None
  }

  function MarshalVariant(v: Variant): Attr
  {
    M(map["resolution" := S(v.resolution), "size" := S(v.size), "url" := S(v.url)])
  }

  function MarshalVariants(vs: seq<Variant>): (r: seq<Attr>)
    ensures |r| == |vs|
    ensures forall i :: 0 <= i < |vs| ==> r[i] == MarshalVariant(vs[i])
  {
    seq(|vs|, i requires 0 <= i < |vs| => MarshalVariant(vs[i]))
  }

  /** The typed form in which the stream delivers a stored item. */
  function MarshalItem(item: Item): map<string, Attr>
  {
    map[
      "userid-imageid" := S(item.compositeKey),
      "userId" := S(item.userId),
      "imageId" := S(item.imageId),
      "tmpImgLocation" := S(item.tmpImgLocation),
      "convertedImageUrls" := L(MarshalVariants(item.convertedImageUrls))]
  }
}
