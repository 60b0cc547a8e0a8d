/**
 * The converter that runs when the ingestion table's change stream
 * delivers an item: it copies the original upload to its final key,
 * writes one rendition per selected size (PNG when the image has an alpha
 * channel, JPEG otherwise), deletes the temporary upload, and overwrites
 * the table item with the list of variants.
 *
 * Decoding and resizing are not modelled: what the image library reports
 * about the decoded upload is the parameter `facts` (`None` when the bytes
 * do not decode) and the rendition it produces for a size is `render`.
 */
module ImageConverter {
  import opened Wrappers
  import opened Text
  import opened Records
  import opened Stores
  import opened PosixPath

  /** The target sizes, in pixels of the longer side, smallest first. */
  const Sizes: seq<nat> := [256, 512, 768, 1024, 1536]
  const CacheControl: string := "public, max-age=31536000, immutable"
  const DefaultContentType: string := "application/octet-stream"

  predicate Ascending(xs: seq<nat>)
  {
    forall i, j :: 0 <= i < j < |xs| ==> xs[i] < xs[j]
  }

  function Max(a: nat, b: nat): nat
  {
    if a >= b then a else b
  }

  /** The elements of `xs` that are at most `m`, in their order. */
  function AtMost(xs: seq<nat>, m: nat): (r: seq<nat>)
    ensures forall s :: s in r <==> s in xs && s <= m
  {
    if xs == [] then [] else (if xs[0] <= m then [xs[0]] else []) + AtMost(xs[1..], m)
  }

  lemma {:induction false} AtMostAscending(xs: seq<nat>, m: nat)
    requires Ascending(xs)
    ensures Ascending(AtMost(xs, m))
  {
    if xs != [] {
      var rest := AtMost(xs[1..], m);
      AtMostAscending(xs[1..], m);
      if xs[0] <= m {
        AscendingHead(xs);
        assert forall y :: y in rest ==> xs[0] < y;
        ConsAscending(xs[0], rest);
      } else {
        assert AtMost(xs, m) == rest;
      }
    }
  }

  /** A value below every element of an ascending sequence extends it at the front. */
  lemma ConsAscending(x: nat, rest: seq<nat>)
    requires Ascending(rest) && forall y :: y in rest ==> x < y
    ensures Ascending([x] + rest)
  {
    var r := [x] + rest;
    forall i, j | 0 <= i < j < |r|
      ensures r[i] < r[j]
    {
      assert r[j] == rest[j - 1];
      if i > 0 {
        assert r[i] == rest[i - 1];
      } else {
        assert rest[j - 1] in rest;
      }
    }
  }

  /** The head of an ascending sequence is below everything after it. */
  lemma AscendingHead(xs: seq<nat>)
    requires xs != [] && Ascending(xs)
    ensures forall y :: y in xs[1..] ==> xs[0] < y
  {
    forall y | y in xs[1..]
      ensures xs[0] < y
    {
      var k :| 0 <= k < |xs[1..]| && xs[1..][k] == y;
      assert xs[k + 1] == y;
    }
  }

  /**
   * The sizes to render: every target size that does not exceed the
   * longer side, or, for an image smaller than every target, the longer
   * side itself. Never empty, never an upscale, smallest first.
   */
  function SelectSizes(width: nat, height: nat): (sizes: seq<nat>)
    ensures sizes != [] && Ascending(sizes)
    ensures forall s :: s in sizes ==> s <= Max(width, height)
    ensures forall s :: s in sizes <==>
      (s in Sizes && s <= Max(width, height)) || (Max(width, height) < 256 && s == Max(width, height))
  {
    var longest := Max(width, height);
    var fitting := AtMost(Sizes, longest);
    SizesFacts();
    AtMostAscending(Sizes, longest);
    if fitting == [] then
      assert longest >= 256 ==> 256 in fitting;
      [longest]
    else
      assert fitting[0] in fitting;
      fitting
  }

  lemma SizesFacts()
    ensures Ascending(Sizes)
    ensures 256 in Sizes && forall s :: s in Sizes ==> 256 <= s
  {
  }

  function Dist(a: int, b: int): nat
  {
    if a >= b then a - b else b - a
  }

  /** `a / d` rounded to the nearest integer, ties to the even neighbour. */
  function RoundHalfEven(a: nat, d: nat): (q: nat)
    requires d > 0
    ensures 2 * Dist(q * d, a) <= d
    ensures 2 * Dist(q * d, a) == d ==> q % 2 == 0
  {
    DivisionParts(a, d);
    NearestOf(a, d, a / d, a % d)
  }

  /** The nearer of `q` and `q + 1` times `d` to `a = q * d + r`, ties to the even one. */
  function NearestOf(a: nat, d: nat, q: nat, r: nat): (n: nat)
    requires q * d == a - r && 0 <= r < d
    ensures 2 * Dist(n * d, a) <= d
    ensures 2 * Dist(n * d, a) == d ==> n % 2 == 0
  {
    if 2 * r < d || (2 * r == d && q % 2 == 0) then
      RoundDown(a, d, q, r);
      q
    else
      RoundUp(a, d, q, r);
      q + 1
  }

  /** Euclidean division leaves a remainder below the divisor. */
  lemma DivisionParts(a: nat, d: nat)
    requires d > 0
    ensures (a / d) * d == a - a % d && 0 <= a % d < d
  {
  }

  /** Rounding down misses `a` by the remainder. */
  lemma RoundDown(a: nat, d: nat, q: nat, r: nat)
    requires q * d == a - r && 0 <= r < d
    ensures Dist(q * d, a) == r
  {
  }

  /** Rounding up misses `a` by the divisor less the remainder. */
  lemma RoundUp(a: nat, d: nat, q: nat, r: nat)
    requires q * d == a - r && 0 <= r < d
    ensures Dist((q + 1) * d, a) == d - r
  {
    assert (q + 1) * d == q * d + d;
  }

  /** `t` tenths written with one decimal place. */
  function Tenths(t: nat): string
  {
    NatToString(t / 10) + "." + [DigitChar(t % 10)]
  }

  /** `t` hundredths written with two decimal places. */
  function Hundredths(t: nat): string
  {
    NatToString(t / 100) + "." + [DigitChar(t / 10 % 10), DigitChar(t % 10)]
  }

  /** Reading the digits of a one-decimal label back gives the tenths it was written from. */
  lemma TenthsValue(t: nat)
    ensures var s := Tenths(t);
      |s| >= 3 && s[|s| - 2] == '.' && AllDigits(s[..|s| - 2]) && IsDigit(s[|s| - 1]) &&
      DecimalValue(s[..|s| - 2]) * 10 + (s[|s| - 1] as int - '0' as int) == t
  {
    var s := Tenths(t);
    assert s[..|s| - 2] == NatToString(t / 10);
    DecimalValueOfNatToString(t / 10);
  }

  /** Reading the digits of a two-decimal label back gives the hundredths it was written from. */
  lemma HundredthsValue(t: nat)
    ensures var s := Hundredths(t);
      |s| >= 4 && s[|s| - 3] == '.' && AllDigits(s[..|s| - 3]) && IsDigit(s[|s| - 2]) && IsDigit(s[|s| - 1]) &&
      DecimalValue(s[..|s| - 3]) * 100 + (s[|s| - 2] as int - '0' as int) * 10 + (s[|s| - 1] as int - '0' as int) == t
  {
    var s := Hundredths(t);
    assert s[..|s| - 3] == NatToString(t / 100);
    DecimalValueOfNatToString(t / 100);
  }

  /**
   * The human-readable size of `n` bytes: whole bytes below 1 KiB, KiB
   * with one decimal below 1 MiB, MiB with two decimals otherwise, each
   * rounded to nearest with ties to even.
   */
  function FormatSize(n: nat): (r: string)
    ensures |r| >= 2 && r[|r| - 1] == 'B'
    ensures r[|r| - 2] == 'K' <==> 1024 <= n < 1048576
    ensures r[|r| - 2] == 'M' <==> n >= 1048576
  {
    if n < 1024 then NatToString(n) + "B"
    else if n < 1048576 then Tenths(RoundHalfEven(10 * n, 1024)) + "KB"
    else Hundredths(RoundHalfEven(100 * n, 1048576)) + "MB"
  }

  /** The unit of the label follows the magnitude, and the number is within half a last digit of the size. */
  lemma FormatSizeValue(n: nat)
    ensures n < 1024 ==> exists d :: FormatSize(n) == d + "B" && AllDigits(d) && DecimalValue(d) == n
    ensures 1024 <= n < 1048576 ==>
      exists t: nat :: FormatSize(n) == Tenths(t) + "KB" && 2 * Dist(t * 1024, 10 * n) <= 1024
    ensures n >= 1048576 ==>
      exists t: nat :: FormatSize(n) == Hundredths(t) + "MB" && 2 * Dist(t * 1048576, 100 * n) <= 1048576
  {
    if n < 1024 {
      DecimalValueOfNatToString(n);
      assert FormatSize(n) == NatToString(n) + "B";
    } else if n < 1048576 {
      var t := RoundHalfEven(10 * n, 1024);
      assert FormatSize(n) == Tenths(t) + "KB";
    } else {
      var t := RoundHalfEven(100 * n, 1048576);
      assert FormatSize(n) == Hundredths(t) + "MB";
    }
  }

  /** `WIDTHxHEIGHT`. */
  function Resolution(width: nat, height: nat): string
  {
    NatToString(width) + "x" + NatToString(height)
  }

  /** What the image library reports about the decoded, orientation-corrected upload. */
  datatype ImageFacts = ImageFacts(mode: string, hasTransparency: bool, width: nat, height: nat)

  /** One encoded rendition: its pixel size and its bytes. */
  datatype Rendition = Rendition(width: nat, height: nat, data: seq<bv8>)

  /** Renditions keep transparency for `RGBA`, `LA` and palette images that declare a transparent colour. */
  predicate HasAlpha(f: ImageFacts)
  {
    f.mode == "RGBA" || f.mode == "LA" || (f.mode == "P" && f.hasTransparency)
  }

  /** Where the outputs of one upload go: the output directory and the file name split at its extension. */
  datatype Layout = Layout(outDir: string, base: string, ext: string)

  /** The first `instantuploads` of the upload's directory becomes `userimages`. */
  function LayoutOf(key: string): (l: Layout)
    ensures l.base + l.ext == Basename(key)
    ensures '/' !in l.base
  {
    var (base, ext) := SplitExt(Basename(key));
    Layout(ReplaceFirst(Dirname(key), "instantuploads", "userimages"), base, ext)
  }

  function Folder(l: Layout): string
  {
    l.outDir + "/" + l.base + "/"
  }

  function OriginalKey(l: Layout): string
  {
    Folder(l) + "original" + l.ext
  }

  function Extension(alpha: bool): string
  {
    if alpha then ".png" else ".jpg"
  }

  function VariantKey(l: Layout, size: nat, alpha: bool): string
  {
    Folder(l) + NatToString(size) + Extension(alpha)
  }

  function CdnUrl(cdn: string, key: string): string
  {
    cdn + "/" + key
  }

  lemma SuffixCancel(a: string, b: string, s: string)
    ensures a + s == b + s ==> a == b
  {
    if a + s == b + s {
      assert a == (a + s)[..|a|];
    }
  }

  lemma PrefixCancel(p: string, a: string, b: string)
    ensures p + a == p + b ==> a == b
  {
    assert a == (p + a)[|p|..];
    assert b == (p + b)[|p|..];
  }

  /** The keys one upload is copied and rendered to are pairwise different. */
  lemma OutputKeysDistinct(l: Layout, a: nat, b: nat, alpha: bool)
    ensures OriginalKey(l) != VariantKey(l, a, alpha)
    ensures a != b ==> VariantKey(l, a, alpha) != VariantKey(l, b, alpha)
  {
    var f := Folder(l);
    var original := "original" + l.ext;
    var ta := NatToString(a) + Extension(alpha);
    var tb := NatToString(b) + Extension(alpha);
    assert OriginalKey(l) == f + original;
    assert VariantKey(l, a, alpha) == f + ta;
    assert VariantKey(l, b, alpha) == f + tb;
    assert original[0] == 'o' && ta[0] == NatToString(a)[0];
    PrefixCancel(f, original, ta);
    PrefixCancel(f, ta, tb);
    SuffixCancel(NatToString(a), NatToString(b), Extension(alpha));
    if a != b {
      NatToStringInjective(a, b);
    }
  }

  /** One object the converter writes, and the variant entry that describes it. */
  datatype Output = Output(key: string, blob: Blob, variant: Variant)

  /** The unchanged copy of the upload, with its content type (or the default) and the cache header. */
  function OriginalOutput(l: Layout, src: Blob, f: ImageFacts, cdn: string): Output
  {
    Output(
      OriginalKey(l),
      Blob(src.data, Some(src.contentType.GetOr(DefaultContentType)), CacheControl),
      Variant(Resolution(f.width, f.height), FormatSize(|src.data|), CdnUrl(cdn, OriginalKey(l))))
  }

  function SizeOutput(l: Layout, size: nat, alpha: bool, r: Rendition, cdn: string): Output
  {
    Output(
      VariantKey(l, size, alpha),
      Blob(r.data, Some(if alpha then "image/png" else "image/jpeg"), CacheControl),
      Variant(Resolution(r.width, r.height), FormatSize(|r.data|), CdnUrl(cdn, VariantKey(l, size, alpha))))
  }

  /** Everything the converter writes for one upload, in the order it writes it. */
  function Outputs(key: string, src: Blob, f: ImageFacts, render: nat -> Rendition, cdn: string): (outs: seq<Output>)
    ensures |outs| == 1 + |SelectSizes(f.width, f.height)|
  {
    var l := LayoutOf(key);
    [OriginalOutput(l, src, f, cdn)] + Renditions(SizeMaker(l, HasAlpha(f), render, cdn), SelectSizes(f.width, f.height))
  }

  /** How the rendition of one size is produced and where it goes. */
  function SizeMaker(l: Layout, alpha: bool, render: nat -> Rendition, cdn: string): nat -> Output
  {
    (size: nat) => SizeOutput(l, size, alpha, render(size), cdn)
  }

  /** The output `make` produces for each size, in the order of `sizes`. */
  function Renditions(make: nat -> Output, sizes: seq<nat>): (outs: seq<Output>)
    ensures |outs| == |sizes|
  {
    seq(|sizes|, i requires 0 <= i < |sizes| => make(sizes[i]))
  }

  /** The outputs of one upload never share a key, so none overwrites another. */
  lemma OutputsDistinct(key: string, src: Blob, f: ImageFacts, render: nat -> Rendition, cdn: string)
    ensures var outs := Outputs(key, src, f, render, cdn);
      forall i, j :: 0 <= i < j < |outs| ==> outs[i].key != outs[j].key
  {
    var l := LayoutOf(key);
    var alpha := HasAlpha(f);
    var make := SizeMaker(l, alpha, render, cdn);
    forall s: nat
      ensures make(s).key == VariantKey(l, s, alpha)
    {
      assert make(s) == SizeOutput(l, s, alpha, render(s), cdn);
    }
    DistinctKeys(l, OriginalOutput(l, src, f, cdn), make, SelectSizes(f.width, f.height), alpha);
  }

  lemma DistinctKeys(l: Layout, original: Output, make: nat -> Output, sizes: seq<nat>, alpha: bool)
    requires original.key == OriginalKey(l)
    requires forall s: nat :: make(s).key == VariantKey(l, s, alpha)
    requires Ascending(sizes)
    ensures var outs := [original] + Renditions(make, sizes);
      forall i, j :: 0 <= i < j < |outs| ==> outs[i].key != outs[j].key
  {
    var outs := [original] + Renditions(make, sizes);
    forall i, j | 0 <= i < j < |outs|
      ensures outs[i].key != outs[j].key
    {
      var b := sizes[j - 1];
      assert outs[j] == make(b);
      if i == 0 {
        OutputKeysDistinct(l, b, b, alpha);
      } else {
        var a := sizes[i - 1];
        assert outs[i] == make(a);
        OutputKeysDistinct(l, a, b, alpha);
      }
    }
  }

  function PutOps(outs: seq<Output>): (ops: seq<StoreOp>)
    ensures |ops| == |outs|
    ensures forall i {:trigger ops[i]} :: 0 <= i < |outs| ==> ops[i] == PutObject(outs[i].key, outs[i].blob)
  {
    seq(|outs|, i requires 0 <= i < |outs| => PutObject(outs[i].key, outs[i].blob))
  }

  function VariantsOf(outs: seq<Output>): (vs: seq<Variant>)
    ensures |vs| == |outs|
    ensures forall i {:trigger vs[i]} :: 0 <= i < |outs| ==> vs[i] == outs[i].variant
  {
    seq(|outs|, i requires 0 <= i < |outs| => outs[i].variant)
  }

  /** The object keys of `outs`, in order. */
  function OutputKeys(outs: seq<Output>): (keys: seq<string>)
    ensures |keys| == |outs|
    ensures forall i {:trigger keys[i]} :: 0 <= i < |outs| ==> keys[i] == outs[i].key
  {
    seq(|outs|, i requires 0 <= i < |outs| => outs[i].key)
  }

  lemma PrefixSnoc(outs: seq<Output>, n: nat)
    requires n < |outs|
    ensures PutOps(outs[..n + 1]) == PutOps(outs[..n]) + [PutObject(outs[n].key, outs[n].blob)]
    ensures VariantsOf(outs[..n + 1]) == VariantsOf(outs[..n]) + [outs[n].variant]
  {
  }

  /** The number of outputs written before the first one the store refuses. */
  function Accepted(outs: seq<Output>, denied: set<string>): (k: nat)
    ensures k <= |outs|
  {
    if outs == [] || outs[0].key in denied then 0 else 1 + Accepted(outs[1..], denied)
  }

  /** The accepted outputs are exactly those before the first refused key. */
  lemma {:induction false} AcceptedPrefix(outs: seq<Output>, denied: set<string>)
    ensures var k := Accepted(outs, denied);
      (forall j :: 0 <= j < k ==> outs[j].key !in denied) && (k < |outs| ==> outs[k].key in denied)
    decreases |outs|
  {
    if outs != [] && outs[0].key !in denied {
      AcceptedPrefix(outs[1..], denied);
    }
  }

  datatype ConvertError =
    | NoRecord
    | MissingAttribute(name: string)
    | GetFailed(reason: string)
    | Undecodable
    | PutRefused(key: string)
    | DeleteRefused(key: string)
    | ItemRefused(compositeKey: string)

  /** The variant list a conversion returns, or its error, and the writes the store accepted. */
  datatype Conversion = Conversion(result: Result<seq<Variant>, ConvertError>, ops: seq<StoreOp>)

  /**
   * One conversion of the upload at `key`: read it, write the copy and
   * the renditions in order until the first refusal, and delete the
   * upload only once all of them are written.
   */
  function Converted(
    key: string, objects: map<string, Blob>, available: bool, denied: set<string>,
    facts: Option<ImageFacts>, render: nat -> Rendition, cdn: string): Conversion
  {
    if !available then Conversion(Failure(GetFailed("ServiceUnavailable")), [])
    else if key !in objects then Conversion(Failure(GetFailed("NoSuchKey")), [])
    else if facts.None? then Conversion(Failure(Undecodable), [])
    else Writes(key, Outputs(key, objects[key], facts.value, render, cdn), denied)
  }

  /** Write `outs` in order until the first refusal; delete the upload only once all are written. */
  function Writes(key: string, outs: seq<Output>, denied: set<string>): Conversion
  {
    var k := Accepted(outs, denied);
    if k < |outs| then Conversion(Failure(PutRefused(outs[k].key)), PutOps(outs[..k]))
    else if key in denied then Conversion(Failure(DeleteRefused(key)), PutOps(outs))
    else Conversion(Success(VariantsOf(outs)), PutOps(outs) + [DeleteObject(key)])
  }

  lemma NoDeleteAmongPuts(outs: seq<Output>, key: string)
    ensures DeleteObject(key) !in PutOps(outs)
  {
  }

  /** What a successful conversion did: every output accepted, then the upload deleted. */
  lemma ConvertedOnSuccess(
    key: string, objects: map<string, Blob>, available: bool, denied: set<string>,
    facts: Option<ImageFacts>, render: nat -> Rendition, cdn: string)
    requires Converted(key, objects, available, denied, facts, render, cdn).result.Success?
    ensures available && key in objects && facts.Some? && key !in denied
    ensures var outs := Outputs(key, objects[key], facts.value, render, cdn);
      Accepted(outs, denied) == |outs| &&
      Converted(key, objects, available, denied, facts, render, cdn)
        == Conversion(Success(VariantsOf(outs)), PutOps(outs) + [DeleteObject(key)])
  {
  }

  /**
   * The upload is deleted exactly when the conversion succeeds, and then
   * only as the last write, after every output is in place.
   */
  lemma DeleteOnlyAfterAllWrites(
    key: string, objects: map<string, Blob>, available: bool, denied: set<string>,
    facts: Option<ImageFacts>, render: nat -> Rendition, cdn: string)
    ensures var c := Converted(key, objects, available, denied, facts, render, cdn);
      c.result.Success? <==> DeleteObject(key) in c.ops
    ensures var c := Converted(key, objects, available, denied, facts, render, cdn);
      c.result.Success? ==> c.ops == PutOps(Outputs(key, objects[key], facts.value, render, cdn)) + [DeleteObject(key)]
  {
    var c := Converted(key, objects, available, denied, facts, render, cdn);
    if !available || key !in objects || facts.None? {
      assert c.ops == [] && c.result.Failure?;
    } else {
      var outs := Outputs(key, objects[key], facts.value, render, cdn);
      var k := Accepted(outs, denied);
      if k < |outs| {
        assert c == Conversion(Failure(PutRefused(outs[k].key)), PutOps(outs[..k]));
        NoDeleteAmongPuts(outs[..k], key);
      } else if key in denied {
        assert c == Conversion(Failure(DeleteRefused(key)), PutOps(outs));
        NoDeleteAmongPuts(outs, key);
      } else {
        assert c == Conversion(Success(VariantsOf(outs)), PutOps(outs) + [DeleteObject(key)]);
      }
    }
  }

  /**
   * A successful conversion returns the original's entry first and then
   * one entry per selected size, smallest first, each pointing at the CDN
   * copy of the object written for it.
   */
  lemma SuccessVariantOrder(
    key: string, objects: map<string, Blob>, available: bool, denied: set<string>,
    facts: Option<ImageFacts>, render: nat -> Rendition, cdn: string)
    requires Converted(key, objects, available, denied, facts, render, cdn).result.Success?
    ensures facts.Some?
    ensures var vs := Converted(key, objects, available, denied, facts, render, cdn).result.value;
      var sizes := SelectSizes(facts.value.width, facts.value.height);
      var l := LayoutOf(key);
      |vs| == 1 + |sizes| &&
      vs[0].url == CdnUrl(cdn, OriginalKey(l)) &&
      forall i :: 0 <= i < |sizes| ==> vs[i + 1].url == CdnUrl(cdn, VariantKey(l, sizes[i], HasAlpha(facts.value)))
  {
    ConvertedOnSuccess(key, objects, available, denied, facts, render, cdn);
    OutputKeysAndUrls(key, objects[key], facts.value, render, cdn);
  }

  /**
   * Each output's variant entry points at the CDN copy of that output's
   * key: the copy's key first, then one rendition key per selected size.
   */
  lemma OutputKeysAndUrls(key: string, src: Blob, f: ImageFacts, render: nat -> Rendition, cdn: string)
    ensures var outs := Outputs(key, src, f, render, cdn);
      var l := LayoutOf(key);
      var sizes := SelectSizes(f.width, f.height);
      outs[0].key == OriginalKey(l) &&
      (forall i :: 0 <= i < |sizes| ==> outs[i + 1].key == VariantKey(l, sizes[i], HasAlpha(f))) &&
      forall i :: 0 <= i < |outs| ==> outs[i].variant.url == CdnUrl(cdn, outs[i].key)
  {
    var l := LayoutOf(key);
    var alpha := HasAlpha(f);
    var make := SizeMaker(l, alpha, render, cdn);
    forall s: nat
      ensures make(s).key == VariantKey(l, s, alpha)
      ensures make(s).variant.url == CdnUrl(cdn, make(s).key)
    {
      assert make(s) == SizeOutput(l, s, alpha, render(s), cdn);
    }
    var original := OriginalOutput(l, src, f, cdn);
    assert original.variant.url == CdnUrl(cdn, original.key);
    RenditionKeysAndUrls(l, original, make, SelectSizes(f.width, f.height), alpha, cdn);
  }

  lemma RenditionKeysAndUrls(l: Layout, original: Output, make: nat -> Output,
    sizes: seq<nat>, alpha: bool, cdn: string)
    requires original.key == OriginalKey(l)
    requires original.variant.url == CdnUrl(cdn, original.key)
    requires forall s: nat :: make(s).key == VariantKey(l, s, alpha)
    requires forall s: nat :: make(s).variant.url == CdnUrl(cdn, make(s).key)
    ensures var outs := [original] + Renditions(make, sizes);
      outs[0].key == OriginalKey(l) &&
      (forall i :: 0 <= i < |sizes| ==> outs[i + 1].key == VariantKey(l, sizes[i], alpha)) &&
      forall i :: 0 <= i < |outs| ==> outs[i].variant.url == CdnUrl(cdn, outs[i].key)
  {
    var rs := Renditions(make, sizes);
    var outs := [original] + rs;
    forall i | 0 <= i < |sizes|
      ensures outs[i + 1] == make(sizes[i])
    {
      assert outs[i + 1] == rs[i];
    }
  }

  /** Writing every output of a successful conversion leaves each of them stored under its key. */
  lemma SuccessStoresEveryOutput(
    key: string, objects: map<string, Blob>, available: bool, denied: set<string>,
    facts: Option<ImageFacts>, render: nat -> Rendition, cdn: string)
    requires Converted(key, objects, available, denied, facts, render, cdn).result.Success?
    ensures key in objects && facts.Some? && key !in Apply(objects, Converted(key, objects, available, denied, facts, render, cdn).ops, denied)
    ensures var outs := Outputs(key, objects[key], facts.value, render, cdn);
      var after := Apply(objects, Converted(key, objects, available, denied, facts, render, cdn).ops, denied);
      forall i :: 0 <= i < |outs| && outs[i].key != key ==> outs[i].key in after && after[outs[i].key] == outs[i].blob
  {
    ConvertedOnSuccess(key, objects, available, denied, facts, render, cdn);
    var outs := Outputs(key, objects[key], facts.value, render, cdn);
    OutputsDistinct(key, objects[key], facts.value, render, cdn);
    WritesStoreEach(key, outs, objects, denied);
  }

  lemma WritesStoreEach(key: string, outs: seq<Output>, objects: map<string, Blob>, denied: set<string>)
    requires Writes(key, outs, denied).result.Success?
    requires forall i, j :: 0 <= i < j < |outs| ==> outs[i].key != outs[j].key
    ensures var after := Apply(objects, Writes(key, outs, denied).ops, denied);
      key !in after && forall i :: 0 <= i < |outs| && outs[i].key != key ==> outs[i].key in after && after[outs[i].key] == outs[i].blob
  {
    assert Writes(key, outs, denied).ops == PutOps(outs) + [DeleteObject(key)];
    PutsStoreEach(objects, outs, denied);
    ApplyOne(objects, PutOps(outs), DeleteObject(key), denied);
  }

  lemma {:induction false} PutsStoreEach(objects: map<string, Blob>, outs: seq<Output>, denied: set<string>)
    requires forall i, j :: 0 <= i < j < |outs| ==> outs[i].key != outs[j].key
    ensures var after := Apply(objects, PutOps(outs), denied);
      forall i :: 0 <= i < |outs| ==> outs[i].key in after && after[outs[i].key] == outs[i].blob
    decreases |outs|
  {
    if outs != [] {
      var n := |outs| - 1;
      PutsStoreEach(objects, outs[..n], denied);
      assert PutOps(outs)[..n] == PutOps(outs[..n]);
    }
  }

  /**
   * `process_image`: read the upload, write its copy and one rendition per
   * selected size, then delete the upload; the first refused write ends the
   * run with nothing after it.
   */
  method ProcessImage(key: string, store: ObjectStore, facts: Option<ImageFacts>, render: nat -> Rendition, cdn: string)
    returns (r: Result<seq<Variant>, ConvertError>)
    modifies store
    ensures var c := Converted(key, old(store.objects), store.available, store.denied, facts, render, cdn);
      r == c.result && store.log == old(store.log) + c.ops &&
      store.objects == Apply(old(store.objects), c.ops, store.denied)
  {
    var got := store.Get(key);
    if got.Failure? {
      return Failure(GetFailed(got.error));
    }
    if facts.None? {
      return Failure(Undecodable);
    }
    var f := facts.value;
    var l := LayoutOf(key);
    var original := OriginalOutput(l, got.value, f, cdn);
    var make := SizeMaker(l, HasAlpha(f), render, cdn);
    var sizes := SelectSizes(f.width, f.height);
    ConvertedOfRead(key, old(store.objects), store.denied, f, render, cdn);
    r := WriteOutputs(store, key, original, make, sizes);
  }

  lemma ConvertedOfRead(key: string, objects: map<string, Blob>, denied: set<string>, f: ImageFacts, render: nat -> Rendition, cdn: string)
    requires key in objects
    ensures var l := LayoutOf(key);
      Converted(key, objects, true, denied, Some(f), render, cdn) ==
      Writes(key, [OriginalOutput(l, objects[key], f, cdn)] + Renditions(SizeMaker(l, HasAlpha(f), render, cdn), SelectSizes(f.width, f.height)), denied)
  {
  }

  /**
   * The writing part of `process_image`: the copy of the upload, then
   * the renditions, then the deletion of the upload.
   */
  method WriteOutputs(store: ObjectStore, key: string, original: Output, make: nat -> Output, sizes: seq<nat>)
    returns (r: Result<seq<Variant>, ConvertError>)
    requires store.available
    modifies store
    ensures var c := Writes(key, [original] + Renditions(make, sizes), store.denied);
      r == c.result && store.log == old(store.log) + c.ops &&
      store.objects == Apply(old(store.objects), c.ops, store.denied)
  {
    ghost var rest := Renditions(make, sizes);
    ghost var log0, objects0 := store.log, store.objects;
    var ok := store.Put(original.key, original.blob);
    if !ok {
      WritesRefusedFirst(key, original, rest, store.denied);
      return Failure(PutRefused(original.key));
    }
    ghost var log1, objects1 := store.log, store.objects;
    r := WriteRenditions(store, key, make, sizes);
    FirstThenRest(key, original, rest, store.denied, log0, objects0, log1, objects1, store.log, store.objects);
    WritesAfterFirst(key, original, rest, store.denied);
    if r.Success? {
      r := Success([original.variant] + r.value);
    }
  }

  /**
   * A run over the copy and the renditions leaves the log and the bucket
   * as writing the copy and then running over the renditions does.
   */
  lemma FirstThenRest(key: string, first: Output, rest: seq<Output>, denied: set<string>,
      log0: seq<StoreOp>, objects0: map<string, Blob>, log1: seq<StoreOp>, objects1: map<string, Blob>,
      log2: seq<StoreOp>, objects2: map<string, Blob>)
    requires first.key !in denied
    requires log1 == log0 + [PutObject(first.key, first.blob)] && objects1 == objects0[first.key := first.blob]
    requires var d := Writes(key, rest, denied);
      log2 == log1 + d.ops && objects2 == Apply(objects1, d.ops, denied)
    ensures var c := Writes(key, [first] + rest, denied);
      log2 == log0 + c.ops && objects2 == Apply(objects0, c.ops, denied)
  {
    WritesAfterFirst(key, first, rest, denied);
    PutThenLog(first.key, first.blob, Writes(key, rest, denied).ops, denied, log0, objects0, log1, objects1, log2, objects2);
  }

  /** One put followed by the writes `ops` leaves the log and the bucket as the log `[put] + ops` does. */
  lemma PutThenLog(k: string, b: Blob, ops: seq<StoreOp>, denied: set<string>,
      log0: seq<StoreOp>, objects0: map<string, Blob>, log1: seq<StoreOp>, objects1: map<string, Blob>,
      log2: seq<StoreOp>, objects2: map<string, Blob>)
    requires k !in denied
    requires log1 == log0 + [PutObject(k, b)] && objects1 == objects0[k := b]
    requires log2 == log1 + ops && objects2 == Apply(objects1, ops, denied)
    ensures log2 == log0 + ([PutObject(k, b)] + ops) && objects2 == Apply(objects0, [PutObject(k, b)] + ops, denied)
  {
    var put := PutObject(k, b);
    ApplySingle(objects0, put, denied);
    ApplyAppend(objects0, [put], ops, denied);
  }

  /**
   * The rest of `process_image` once the copy is written: one rendition per
   * size in the order of `sizes`, then the deletion of the upload.
   */
  method WriteRenditions(store: ObjectStore, key: string, make: nat -> Output, sizes: seq<nat>)
    returns (r: Result<seq<Variant>, ConvertError>)
    requires store.available
    modifies store
    ensures var c := Writes(key, Renditions(make, sizes), store.denied);
      r == c.result && store.log == old(store.log) + c.ops &&
      store.objects == Apply(old(store.objects), c.ops, store.denied)
  {
    ghost var outs := Renditions(make, sizes);
    var urls, stop := PutRenditions(store, make, sizes);
    if stop < |sizes| {
      assert outs[stop] == make(sizes[stop]);
      return Failure(PutRefused(make(sizes[stop]).key));
    }
    assert outs[..stop] == outs;
    var ok := store.Delete(key);
    if !ok {
      return Failure(DeleteRefused(key));
    }
    ApplyOne(old(store.objects), PutOps(outs), DeleteObject(key), store.denied);
    return Success(urls);
  }

  /**
   * The loop over the sizes: render and write each in turn, stopping at
   * the first write the store refuses; `stop` is the number written.
   */
  method PutRenditions(store: ObjectStore, make: nat -> Output, sizes: seq<nat>)
    returns (urls: seq<Variant>, stop: nat)
    requires store.available
    modifies store
    ensures var outs := Renditions(make, sizes);
      stop == Accepted(outs, store.denied) && urls == VariantsOf(outs[..stop]) &&
      store.log == old(store.log) + PutOps(outs[..stop]) &&
      store.objects == Apply(old(store.objects), PutOps(outs[..stop]), store.denied)
  {
    ghost var outs, denied := Renditions(make, sizes), store.denied;
    ghost var log0, objects0 := store.log, store.objects;
    urls := [];
    stop := 0;
    while stop < |sizes|
      invariant 0 <= stop <= |sizes|
      invariant store.log == log0 + PutOps(outs[..stop])
      invariant store.objects == Apply(objects0, PutOps(outs[..stop]), denied)
      invariant urls == VariantsOf(outs[..stop])
      invariant forall j :: 0 <= j < stop ==> outs[j].key !in denied
    {
      var out := make(sizes[stop]);
      assert out == outs[stop];
      var ok := store.Put(out.key, out.blob);
      if !ok {
        AcceptedStopsAt(outs, denied, stop);
        return;
      }
      PrefixSnoc(outs, stop);
      ApplyOne(objects0, PutOps(outs[..stop]), PutObject(out.key, out.blob), denied);
      urls := urls + [out.variant];
      stop := stop + 1;
    }
    AcceptedStopsAt(outs, denied, stop);
  }

  /** Once the first output is written, the run goes on exactly as a run over the remaining outputs. */
  lemma WritesAfterFirst(key: string, first: Output, rest: seq<Output>, denied: set<string>)
    requires first.key !in denied
    ensures var c := Writes(key, [first] + rest, denied);
      var d := Writes(key, rest, denied);
      c.ops == [PutObject(first.key, first.blob)] + d.ops &&
      c.result == match d.result
        case Failure(e) => Failure(e)
        case Success(vs) => Success([first.variant] + vs)
  {
    var k := Accepted(rest, denied);
    if k < |rest| {
      AfterFirstRefused(key, first, rest, denied);
    } else if key in denied {
      AfterFirstKept(key, first, rest, denied);
    } else {
      AfterFirstDone(key, first, rest, denied);
    }
  }

  lemma AfterFirstRefused(key: string, first: Output, rest: seq<Output>, denied: set<string>)
    requires first.key !in denied && Accepted(rest, denied) < |rest|
    ensures Writes(key, [first] + rest, denied) ==
      Conversion(Writes(key, rest, denied).result, [PutObject(first.key, first.blob)] + Writes(key, rest, denied).ops)
  {
    var k := Accepted(rest, denied);
    AcceptedCons(first, rest, denied);
    ConsPrefix(first, rest, k);
    assert ([first] + rest)[k + 1] == rest[k];
  }

  lemma AfterFirstKept(key: string, first: Output, rest: seq<Output>, denied: set<string>)
    requires first.key !in denied && Accepted(rest, denied) == |rest| && key in denied
    ensures Writes(key, [first] + rest, denied) ==
      Conversion(Writes(key, rest, denied).result, [PutObject(first.key, first.blob)] + Writes(key, rest, denied).ops)
  {
    AcceptedCons(first, rest, denied);
    ConsPrefix(first, rest, |rest|);
  }

  lemma AfterFirstDone(key: string, first: Output, rest: seq<Output>, denied: set<string>)
    requires first.key !in denied && Accepted(rest, denied) == |rest| && key !in denied
    ensures Writes(key, [first] + rest, denied) ==
      Conversion(Success([first.variant] + VariantsOf(rest)), [PutObject(first.key, first.blob)] + Writes(key, rest, denied).ops)
  {
    AcceptedCons(first, rest, denied);
    ConsPrefix(first, rest, |rest|);
  }

  lemma AcceptedCons(first: Output, rest: seq<Output>, denied: set<string>)
    requires first.key !in denied
    ensures Accepted([first] + rest, denied) == 1 + Accepted(rest, denied)
  {
    assert ([first] + rest)[1..] == rest;
  }

  lemma ConsPrefix(first: Output, rest: seq<Output>, k: nat)
    requires k <= |rest|
    ensures PutOps(([first] + rest)[..k + 1]) == [PutObject(first.key, first.blob)] + PutOps(rest[..k])
    ensures PutOps([first] + rest) == [PutObject(first.key, first.blob)] + PutOps(rest)
    ensures VariantsOf([first] + rest) == [first.variant] + VariantsOf(rest)
  {
    assert ([first] + rest)[..k + 1] == [first] + rest[..k];
  }

  /** A run whose first write is refused writes nothing. */
  lemma WritesRefusedFirst(key: string, first: Output, rest: seq<Output>, denied: set<string>)
    requires first.key in denied
    ensures Writes(key, [first] + rest, denied) == Conversion(Failure(PutRefused(first.key)), [])
  {
    assert Accepted([first] + rest, denied) == 0;
  }

  lemma {:induction false} AcceptedStopsAt(outs: seq<Output>, denied: set<string>, k: nat)
    requires k <= |outs|
    requires forall j :: 0 <= j < k ==> outs[j].key !in denied
    requires k < |outs| ==> outs[k].key in denied
    ensures Accepted(outs, denied) == k
    decreases k
  {
    if k > 0 {
      AcceptedStopsAt(outs[1..], denied, k - 1);
    }
  }

  /** The three attributes the handler reads from the first record's new image. */
  datatype Target = Target(tmpImgLocation: string, userId: string, imageId: string)

  function TargetOf(records: seq<StreamRecord>): (r: Result<Target, ConvertError>)
    ensures r.Success? ==> records != [] && records[0].newImage.Some?
  {
    if records == [] then Failure(NoRecord)
    else if records[0].newImage.None? then Failure(MissingAttribute("NewImage"))
    else
      var image := records[0].newImage.value;
      match (StringAttr(image, "tmpImgLocation"), StringAttr(image, "userId"), StringAttr(image, "imageId"))
      case (None, _, _) => Failure(MissingAttribute("tmpImgLocation"))
      case (_, None, _) => Failure(MissingAttribute("userId"))
      case (_, _, None) => Failure(MissingAttribute("imageId"))
      case (Some(tmp), Some(u), Some(i)) => Success(Target(tmp, u, i))
  }

  /** The handler reads back exactly the fields of an item the stream delivers. */
  lemma TargetOfStoredItem(item: Item, rest: seq<StreamRecord>, eventName: string, keys: map<string, Attr>, oldImage: Option<map<string, Attr>>)
    ensures TargetOf([StreamRecord(eventName, keys, Some(MarshalItem(item)), oldImage)] + rest)
      == Success(Target(item.tmpImgLocation, item.userId, item.imageId))
  {
  }

  /** `update_dynamodb`: the item the converter puts, replacing the watcher's item under the same key. */
  function ConvertedItem(t: Target, urls: seq<Variant>): Item
  {
    Item(CompositeKey(t.userId, t.imageId), t.userId, t.imageId, t.tmpImgLocation, urls)
  }

  /** What one invocation returns, the object writes it made and the table afterwards. */
  datatype Run = Run(result: Result<nat, ConvertError>, ops: seq<StoreOp>, items: map<string, Item>)

  function Handled(
    records: seq<StreamRecord>, objects: map<string, Blob>, available: bool, denied: set<string>,
    items: map<string, Item>, tableDenied: set<string>,
    facts: Option<ImageFacts>, render: nat -> Rendition, cdn: string): Run
  {
    match TargetOf(records)
    case Failure(e) => Run(Failure(e), [], items)
    case Success(t) => Recorded(t, Converted(t.tmpImgLocation, objects, available, denied, facts, render, cdn), items, tableDenied)
  }

  /** After the conversion `c` of target `t`: the table write when it succeeded. */
  function Recorded(t: Target, c: Conversion, items: map<string, Item>, tableDenied: set<string>): Run
  {
    match c.result
    case Failure(e) => Run(Failure(e), c.ops, items)
    case Success(urls) =>
      var item := ConvertedItem(t, urls);
      if item.compositeKey in tableDenied then Run(Failure(ItemRefused(item.compositeKey)), c.ops, items)
      else Run(Success(200), c.ops, items[item.compositeKey := item])
  }

  /**
   * The table is written only after a complete conversion, and the item
   * written is ready: its variant list holds the original and at least
   * one rendition.
   */
  lemma TableWrittenOnlyWhenReady(
    records: seq<StreamRecord>, objects: map<string, Blob>, available: bool, denied: set<string>,
    items: map<string, Item>, tableDenied: set<string>,
    facts: Option<ImageFacts>, render: nat -> Rendition, cdn: string)
    ensures var h := Handled(records, objects, available, denied, items, tableDenied, facts, render, cdn);
      h.items != items ==>
        h.result == Success(200) &&
        TargetOf(records).Success? &&
        var t := TargetOf(records).value;
        var key := CompositeKey(t.userId, t.imageId);
        key in h.items && Ready(h.items[key]) && |h.items[key].convertedImageUrls| >= 2 &&
        DeleteObject(t.tmpImgLocation) in h.ops
  {
    if TargetOf(records).Success? {
      var t := TargetOf(records).value;
      var c := Converted(t.tmpImgLocation, objects, available, denied, facts, render, cdn);
      DeleteOnlyAfterAllWrites(t.tmpImgLocation, objects, available, denied, facts, render, cdn);
      if c.result.Success? {
        SuccessCount(t.tmpImgLocation, objects, available, denied, facts, render, cdn);
      }
      RecordedOnlyOnSuccess(t, c, items, tableDenied);
    }
  }

  /** A successful conversion returns the original's entry and at least one rendition's. */
  lemma SuccessCount(
    key: string, objects: map<string, Blob>, available: bool, denied: set<string>,
    facts: Option<ImageFacts>, render: nat -> Rendition, cdn: string)
    requires Converted(key, objects, available, denied, facts, render, cdn).result.Success?
    ensures |Converted(key, objects, available, denied, facts, render, cdn).result.value| >= 2
  {
    ConvertedOnSuccess(key, objects, available, denied, facts, render, cdn);
  }

  /** The table changes only with the item of a successful conversion, under its composite key. */
  lemma RecordedOnlyOnSuccess(t: Target, c: Conversion, items: map<string, Item>, tableDenied: set<string>)
    ensures var h := Recorded(t, c, items, tableDenied);
      h.ops == c.ops &&
      (h.items != items ==>
        c.result.Success? && h.result == Success(200) &&
        var key := CompositeKey(t.userId, t.imageId);
        key in h.items && h.items[key] == ConvertedItem(t, c.result.value))
  {
  }

  /** `lambda_handler`: convert the upload named by the first record, then record the variants. */
  method Handler(
    records: seq<StreamRecord>, store: ObjectStore, table: Table,
    facts: Option<ImageFacts>, render: nat -> Rendition, cdn: string)
    returns (r: Result<nat, ConvertError>)
    modifies store, table
    ensures var h := Handled(records, old(store.objects), store.available, store.denied,
        old(table.items), table.denied, facts, render, cdn);
      r == h.result && store.log == old(store.log) + h.ops && table.items == h.items &&
      store.objects == Apply(old(store.objects), h.ops, store.denied)
  {
    var target := TargetOf(records);
    if target.Failure? {
      return Failure(target.error);
    }
    var t := target.value;
    var urls := ProcessImage(t.tmpImgLocation, store, facts, render, cdn);
    if urls.Failure? {
      return Failure(urls.error);
    }
    var item := ConvertedItem(t, urls.value);
    var ok := table.Put(item);
    if !ok {
      return Failure(ItemRefused(item.compositeKey));
    }
    return Success(200);
  }
}
