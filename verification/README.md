# Image ingestion pipeline of img-util-web, modelled in Dafny

img-util-web lets a signed-in user upload an image, then serves it in several sizes from a CDN. The model covers the bookkeeping around each image: the keys and the table records that move it from upload, through conversion, to deletion.

- **Web tier** (`webapp/app/actions/aws.ts`). `fetchPresignedUrl` sanitises the file name and builds the upload key `instantuploads/<userId>/<stamp>_<name>`. `deleteImage` checks ownership, adds up the variant sizes, deletes the table item and the database row, and then decrements the user's storage usage. Modules: `ServerActions`, with the `Backend` class for `deleteImage`'s state.
- **Upload watcher** (`aws-lambda/s3-instantuploads-watcher/index.mjs`). For each object-created notification it decodes the key. It then writes one table item `userId-imageId` with an empty variant list. Modules: `UriDecoding`, `UploadWatcher`.
- **Converter** (`aws-lambda/img-converter/lambda_function.py`). It reads the first stream record. It picks the target sizes and copies the original. It writes one rendition per size, records the variant list (resolution, human-readable size, CDN URL) in the table and deletes the upload. Modules: `ImageConverter`, `PosixPath`.
- **Legacy converter** (`img-converter-aws-lambda/lambda_function.py`). It writes `{dir}/{base}_{size}.jpg` beside the upload and does nothing else. Module: `LegacyConverter`.
- **Delete handler** (`aws-lambda/delete-image/index.mjs`). For removed table items it recovers the storage key behind every variant URL. It then sends one bulk delete, or none. Module: `RemovalHandler`.
- **Dashboard** (`webapp/app/dashboard/...`). The gallery's thumbnail choice, display name and size count live in `Gallery`. The single-file upload form is `UploadForm.Form` and the multi-file upload page is `UploadPage.Page`; both are classes whose fields are the React state cells.
- **Cross-component properties** (`Pipeline`). They follow a key or a URL from one component to the next.

Support modules:
- `Wrappers`: `Option`, `Result` and `MapAll`.
- `Text`: the JavaScript and Python string built-ins that are used.
- `Records`: the table item and the stream's typed attribute encoding.
- `Stores`: the table and the bucket as classes that hold a map. The bucket also keeps a log of its write calls.
- `Browser`: the dropped or selected `File`s.

Failures are deterministic parameters rather than exceptions. Each store has a `denied` set of keys; a put or delete to such a key throws. The bucket also has an `available` flag; when it is false, every call throws. A handler that throws is modelled as the `Failure` it returns, with the writes made so far.

Two choices of the watcher shape what a key becomes:
- It replaces `+` with a space *before* percent-decoding (`index.mjs:15`). So `%2B` becomes `+` and a literal `+` becomes a space.
- Any throw (a malformed escape or a refused put) aborts the remaining records of the batch and is re-thrown (`index.mjs:12-52`).

What the proofs show about the code, beyond its own comments:
- The form's image id differs from the watcher's whenever the sanitised name has two or more dots. The form cuts at the first dot of the last key segment (`upload-form.tsx:136`); the watcher cuts at the last dot (`index.mjs:26`). `Pipeline.FormAndWatcherIdsOfUpload` states exactly when they differ, and `Pipeline.TwoDotsSplitTheIds` gives an input where they do.
- The gallery picks the first entry whose URL contains `/256.`. The original's copy comes first, so it is picked whenever its own URL contains `/256.`. That happens, for instance, when a segment of the CDN domain's path or of the upload's folder starts with `256.` (`Pipeline.GalleryThumbnailOfConverted`).
- A name whose only dot is its first character (`.png`) loses its whole name. The watcher cuts the stamped segment `<stamp>_.png` at that dot, so the id is `<stamp>_`, and the gallery then shows `<stamp>_` as its name (`Pipeline.GalleryNameOfStampedId`).
- The sanitiser trims underscores before it cuts the name to 200 characters. A sanitised name can therefore end in `_`, and sanitising it again changes it (`ServerActions.TrailingUnderscoreAfterCut`).
- `handleUpload` sets `uploading` before calling `fetchPresignedUrl`. When that call throws (no session), or when `confirmUpload` throws after an ok response (no session on the server, a refused insert; `webapp/app/actions/index.ts:6-17`), `uploading` stays true, the file stays selected and no dialog opens (`UploadForm.Form.HandleUpload`).
- The composite key `userId-imageId` is not injective (`Records.CompositeKeyNotInjective`).
- The delete handler reads a key back as `new URL(url).pathname` without its first `/` (`delete-image/index.mjs:28-29`). That gives back the converter's key only when the key is plain (`RemovalHandler.PlainKey`): letters, digits, `-`, `.`, `_`, `~` and `/`, with no segment that starts with `.`. A URL parser percent-encodes a space, `"`, `<`, `>`, `` ` ``, `{`, `}` and every non-ASCII character, reads `\` as `/`, and resolves `.` and `..` segments. An upload named `my photo.png` outside the web tier is therefore deleted as `my%20photo` objects, and its converted objects stay in the bucket. The web tier's own names use only `a-z`, `0-9`, `.`, `_` and `-` (`ServerActions.Sanitise`).

## Model

| member | source | states |
|---|---|---|
| UriDecoding.PlusToSpace | aws-lambda/s3-instantuploads-watcher/index.mjs:15 | `replace(/\+/g, " ")` keeps the length and leaves no `+` |
| UriDecoding.HexDigit | aws-lambda/s3-instantuploads-watcher/index.mjs:15 | the encoding digit of a value below 16 reads back as that value and is neither `%` nor `+` |
| UriDecoding.Utf8Value | aws-lambda/s3-instantuploads-watcher/index.mjs:15 | a decoded multi-byte UTF-8 sequence is a Unicode scalar value: below 0x110000 and not a surrogate |
| UriDecoding.NoEscapes | aws-lambda/s3-instantuploads-watcher/index.mjs:15 | `decodeURIComponent` returns a string without `%` unchanged |
| UriDecoding.DecodeLiteral | aws-lambda/s3-instantuploads-watcher/index.mjs:15 | a character other than `%` is copied and decoding continues after it |
| UriDecoding.DecodeUriComponent | aws-lambda/s3-instantuploads-watcher/index.mjs:15 | `decodeURIComponent`: a decoded string is never longer than its input; `None` stands for the `URIError` throw |
| UriDecoding.DecodeKey | aws-lambda/s3-instantuploads-watcher/index.mjs:15 | `+` to space, then `decodeURIComponent`: the decoded key is never longer than the raw one |
| UriDecoding.DecodeKeyWithoutEscapes | aws-lambda/s3-instantuploads-watcher/index.mjs:15 | a raw key without `%` decodes to itself with every `+` turned into a space, and the result holds no `+` |
| UriDecoding.DecodeEscapedPlus | aws-lambda/s3-instantuploads-watcher/index.mjs:15 | `%2B` decodes to a literal `+` |
| UriDecoding.PlusVersusEscapedPlus | aws-lambda/s3-instantuploads-watcher/index.mjs:15 | `+` decodes to a space, `%2B` to `+`, and `a+b%2Bc` to `a b+c` |
| UriDecoding.DecodeMixedExample | aws-lambda/s3-instantuploads-watcher/index.mjs:15 | `decodeURIComponent("a b%2Bc")` is `a b+c` |
| UriDecoding.MalformedEscapeThrows | aws-lambda/s3-instantuploads-watcher/index.mjs:15 | a `%` with fewer than two characters after it, or with a non-hexadecimal first or second character after it, makes `decodeURIComponent` throw, whatever `%`-free text comes before it and whatever follows |
| UriDecoding.Utf8Octets | aws-lambda/s3-instantuploads-watcher/index.mjs:15 | the UTF-8 encoding of a character is one to four values, each a byte |
| UriDecoding.EscapeAll | aws-lambda/s3-instantuploads-watcher/index.mjs:15 | percent-encoding bytes gives three characters per byte and no `+` |
| UriDecoding.PlusToSpaceAppend | aws-lambda/s3-instantuploads-watcher/index.mjs:15 | the `+` replacement works character by character: it distributes over concatenation |
| UriDecoding.PlusToSpaceNoPlus | aws-lambda/s3-instantuploads-watcher/index.mjs:15 | a string without `+` is left as it is |
| UriDecoding.EscapedOctetOfEscape | aws-lambda/s3-instantuploads-watcher/index.mjs:15 | the escape of a byte reads back as that byte |
| UriDecoding.OctetOfEscapeAll | aws-lambda/s3-instantuploads-watcher/index.mjs:15 | the j-th escape of an escaped byte sequence reads back as its j-th byte |
| UriDecoding.DecodeEscapedChar | aws-lambda/s3-instantuploads-watcher/index.mjs:15 | the percent-encoded UTF-8 bytes of any non-ASCII character decode to that character |
| UriDecoding.DecodeEncodedChar | aws-lambda/s3-instantuploads-watcher/index.mjs:15 | a character encoded as in a notification key (space as `+`, other non-unreserved characters percent-encoded) decodes back to itself |
| UriDecoding.DecodeKeyOfFormEncode | aws-lambda/s3-instantuploads-watcher/index.mjs:15 | round trip: decoding the encoded form of any key gives the key back |
| UploadWatcher.ImageIdOf | aws-lambda/s3-instantuploads-watcher/index.mjs:26 | the id is a prefix of the file name: the part before the last `.` when that is non-empty, else the whole name; the id is the whole name exactly when there is no `.` after position 0 |
| UploadWatcher.ImageIdOfCases | aws-lambda/s3-instantuploads-watcher/index.mjs:26 | a name without a dot is its own id; `stem.ext` gives `stem` for a non-empty stem; `.ext` keeps the whole name |
| UploadWatcher.ShortKeyYieldsNoItem | aws-lambda/s3-instantuploads-watcher/index.mjs:18-22 | no item is derived exactly when the key has fewer than two `/`, that is, fewer than three segments |
| UploadWatcher.ItemForKey | aws-lambda/s3-instantuploads-watcher/index.mjs:18-34 | an item keeps the decoded key as `tmpImgLocation`, has no variants, has a user id without `/` and is filed under `userId-imageId` |
| UploadWatcher.ItemForKeyOfPath | aws-lambda/s3-instantuploads-watcher/index.mjs:24-34 | for `prefix/userId/fileName[/more]` the item is keyed `userId-imageId`, keeps the decoded key as `tmpImgLocation` and has no variants; later segments are ignored |
| UploadWatcher.Process | aws-lambda/s3-instantuploads-watcher/index.mjs:12-52 | a batch that gets through answers 200; no item disappears from the table; every new or replaced item has an empty variant list |
| UploadWatcher.Handler | aws-lambda/s3-instantuploads-watcher/index.mjs:9-53 | the loop's outcome and final table are those of the record-by-record `Process` of the batch |
| UploadWatcher.WrittenAppend | aws-lambda/s3-instantuploads-watcher/index.mjs:13-43 | the items written for two consecutive parts of a batch are those of the first part, then those of the second |
| UploadWatcher.PutAllAppend | aws-lambda/s3-instantuploads-watcher/index.mjs:36-41 | putting two lists of items is putting the first and then the second |
| UploadWatcher.ProcessPrefix | aws-lambda/s3-instantuploads-watcher/index.mjs:13-43 | once a prefix of the batch has gone through, the table holds its puts in batch order and processing resumes at the next record |
| UploadWatcher.ProcessOne | aws-lambda/s3-instantuploads-watcher/index.mjs:13-43 | one decodable, unrefused record advances the batch by exactly its own put, or by none when it is too short |
| UploadWatcher.BatchCompletes | aws-lambda/s3-instantuploads-watcher/index.mjs:45-48 | a batch that decodes and is not refused returns 200 after all its puts, in order |
| UploadWatcher.MalformedKeyAborts | aws-lambda/s3-instantuploads-watcher/index.mjs:49-52 | a malformed escape in record j throws: the puts of the records before j stay, none after j is made |
| UploadWatcher.PutFailureAborts | aws-lambda/s3-instantuploads-watcher/index.mjs:36-52 | a refused put in record j throws: the earlier puts stay, none after it is made |
| UploadWatcher.PutAllLastWriterWins | aws-lambda/s3-instantuploads-watcher/index.mjs:36-41 | after a run of unconditional puts, each key holds its last put item; keys no put touches keep their old item or stay absent |
| UploadWatcher.PutAllLastWins | aws-lambda/s3-instantuploads-watcher/index.mjs:36-41 | an item that no later put overrides is what its key holds at the end |
| UploadWatcher.PutAllUntouched | aws-lambda/s3-instantuploads-watcher/index.mjs:36-41 | a key no put names keeps its entry, or stays absent |
| Stores.Table.Put | aws-lambda/s3-instantuploads-watcher/index.mjs:36-41 | a put overwrites the entry under the item's composite key and changes nothing else, or throws for a refused key and changes nothing |
| Records.CompositeKeyNotInjective | aws-lambda/s3-instantuploads-watcher/index.mjs:29 | two different (userId, imageId) pairs can share the composite key, because both parts may contain `-` |
| Records.CompositeKey | aws-lambda/s3-instantuploads-watcher/index.mjs:29 | the table key `{userId}-{imageId}`; `CompositeKeyNotInjective` shows that two pairs can share it |
| Records.StringAttr | aws-lambda/img-converter/lambda_function.py:28-32 | `image[name]["S"]` is present exactly when the attribute exists and is a string, and is then its value |
| Records.MarshalVariants | aws-lambda/img-converter/lambda_function.py:52-60 | each variant of the stored list becomes its typed `M` attribute, in order |
| Records.MarshalItem | aws-lambda/img-converter/lambda_function.py:52-60 | the typed attribute map of a table item; `ImageConverter.TargetOfStoredItem` and `RemovalHandler.ItemUrlsOfVariants` read it back |
| ImageConverter.AtMost | aws-lambda/img-converter/lambda_function.py:87 | the comprehension keeps exactly the sizes not above the maximum |
| ImageConverter.AtMostAscending | aws-lambda/img-converter/lambda_function.py:87 | filtering an ascending list keeps it ascending |
| ImageConverter.SizesFacts | aws-lambda/img-converter/lambda_function.py:10 | `SIZES` is ascending and 256 is its smallest element |
| ImageConverter.SelectSizes | aws-lambda/img-converter/lambda_function.py:84-89 | the sizes are never empty and are ascending; they are exactly the elements of `SIZES` at most max(width, height), or that maximum alone when it is below 256 |
| ImageConverter.RoundHalfEven | aws-lambda/img-converter/lambda_function.py:20-23 | `a/d` rounded to nearest: within half a unit, and even on a tie |
| ImageConverter.NearestOf | aws-lambda/img-converter/lambda_function.py:20-23 | from a quotient and remainder, the nearest multiple is within half a unit and even on a tie |
| ImageConverter.TenthsValue | aws-lambda/img-converter/lambda_function.py:21 | the `.1f` text of t tenths is digits, a dot and one digit, and reads back as t tenths |
| ImageConverter.HundredthsValue | aws-lambda/img-converter/lambda_function.py:23 | the `.2f` text of t hundredths is digits, a dot and two digits, and reads back as t hundredths |
| ImageConverter.FormatSize | aws-lambda/img-converter/lambda_function.py:16-23 | the label ends in `B`; its unit is `KB` exactly from 1024 bytes to below 1 MiB and `MB` exactly from 1 MiB on; `FormatSizeValue` gives the number |
| ImageConverter.FormatSizeValue | aws-lambda/img-converter/lambda_function.py:16-23 | below 1024 the label is the exact byte count and `B`; below 1 MiB it is KiB to one decimal and `KB`; otherwise MiB to two decimals and `MB`; the number is within half a last digit of the true value |
| ImageConverter.LayoutOf | aws-lambda/img-converter/lambda_function.py:91-94 | base followed by extension is the upload's file name, and the base has no `/` |
| ImageConverter.HasAlpha | aws-lambda/img-converter/lambda_function.py:75-78 | alpha for `RGBA`, `LA`, and `P` with a transparency entry; `OutputKeysAndUrls` shows that it picks `.png` over `.jpg` |
| ImageConverter.OutputKeysDistinct | aws-lambda/img-converter/lambda_function.py:97-147 | the original's copy key differs from every rendition key, and two sizes give two different keys |
| ImageConverter.Outputs | aws-lambda/img-converter/lambda_function.py:97-164 | there is one output for the original and one per selected size |
| ImageConverter.Renditions | aws-lambda/img-converter/lambda_function.py:115-164 | one rendition output per size |
| ImageConverter.OutputsDistinct | aws-lambda/img-converter/lambda_function.py:97-147 | all output keys of one conversion are pairwise different |
| ImageConverter.DistinctKeys | aws-lambda/img-converter/lambda_function.py:115-147 | the original plus the renditions of ascending sizes have pairwise different keys |
| ImageConverter.PutOps | aws-lambda/img-converter/lambda_function.py:98-155 | one `put_object` per output, in order, with that output's key and body |
| ImageConverter.VariantsOf | aws-lambda/img-converter/lambda_function.py:106-164 | the variant list has one entry per output, in order |
| ImageConverter.OutputKeys | aws-lambda/img-converter/lambda_function.py:97-147 | the keys written, one per output, in order |
| ImageConverter.Accepted | aws-lambda/img-converter/lambda_function.py:98-155 | the number of outputs written before the first refused put is at most the number of outputs |
| ImageConverter.AcceptedPrefix | aws-lambda/img-converter/lambda_function.py:98-155 | every output before that point is accepted, and the output at that point is refused |
| ImageConverter.AcceptedStopsAt | aws-lambda/img-converter/lambda_function.py:98-155 | the count of written outputs is the first refused position, or all outputs |
| ImageConverter.ConvertedOnSuccess | aws-lambda/img-converter/lambda_function.py:64-173 | a successful conversion read an existing, decodable upload, wrote every output in order, then deleted the upload, and returns their variants |
| ImageConverter.Converted | aws-lambda/img-converter/lambda_function.py:64-173 | one conversion: a failed get or decode writes nothing, a refused put stops the writes, and the delete comes last; `ConvertedOnSuccess` and `DeleteOnlyAfterAllWrites` state it |
| ImageConverter.DeleteOnlyAfterAllWrites | aws-lambda/img-converter/lambda_function.py:149-170 | the upload is deleted exactly when the conversion succeeds, and then only after every output put |
| ImageConverter.SuccessVariantOrder | aws-lambda/img-converter/lambda_function.py:106-164 | the variant list has 1 + \|sizes\| entries: the original's CDN URL first, then each size's rendition URL in size order |
| ImageConverter.OutputKeysAndUrls | aws-lambda/img-converter/lambda_function.py:97-157 | output 0 is `{outdir}/{base}/original{ext}`, output i+1 is `{outdir}/{base}/{size}.png` or `.jpg`, and every url is `AWS_CDN_DOMAIN/key` |
| ImageConverter.RenditionKeysAndUrls | aws-lambda/img-converter/lambda_function.py:147-157 | the same keys and urls, for any maker of rendition outputs |
| ImageConverter.SuccessStoresEveryOutput | aws-lambda/img-converter/lambda_function.py:98-170 | after a successful conversion the upload is gone, and every output whose key is not the upload's own holds its body |
| ImageConverter.WritesStoreEach | aws-lambda/img-converter/lambda_function.py:98-170 | successful writes of distinct outputs leave each output stored and the source deleted |
| ImageConverter.PutsStoreEach | aws-lambda/img-converter/lambda_function.py:98-155 | putting outputs with distinct keys stores each one's body under its key |
| ImageConverter.ProcessImage | aws-lambda/img-converter/lambda_function.py:64-173 | `process_image` returns what `Converted` predicts, and the bucket's calls and contents are its effect |
| ImageConverter.ConvertedOfRead | aws-lambda/img-converter/lambda_function.py:68-113 | once the upload is read, the conversion is the writing of the original's copy followed by one rendition per selected size |
| ImageConverter.WriteOutputs | aws-lambda/img-converter/lambda_function.py:96-173 | the copy, then the renditions, then the delete; stops at the first refused call |
| ImageConverter.WriteRenditions | aws-lambda/img-converter/lambda_function.py:115-173 | the loop over sizes, then the delete of the upload once all are written |
| ImageConverter.PutRenditions | aws-lambda/img-converter/lambda_function.py:115-164 | the loop writes the renditions in order up to the first refusal, and returns the variants of those it wrote |
| ImageConverter.WritesAfterFirst | aws-lambda/img-converter/lambda_function.py:98-164 | once the copy is written, the remaining outputs decide the outcome and the copy's variant heads the list |
| ImageConverter.WritesRefusedFirst | aws-lambda/img-converter/lambda_function.py:98-104 | a refused copy of the original throws before anything is written |
| ImageConverter.TargetOf | aws-lambda/img-converter/lambda_function.py:28-32 | only `Records[0]` is read; it succeeds only when that record has a new image |
| ImageConverter.TargetOfStoredItem | aws-lambda/img-converter/lambda_function.py:28-32 | the handler reads back exactly the location, user id and image id of the item the stream delivers |
| ImageConverter.ConvertedItem | aws-lambda/img-converter/lambda_function.py:46-60 | the item `update_dynamodb` puts, under `{user}-{image}`; `RecordedOnlyOnSuccess` states what the table then holds |
| ImageConverter.Recorded | aws-lambda/img-converter/lambda_function.py:34-60 | the table write after a conversion, only on success; `RecordedOnlyOnSuccess` states it |
| ImageConverter.Handled | aws-lambda/img-converter/lambda_function.py:26-43 | the handler: read the target, convert, record; `TableWrittenOnlyWhenReady` and `Handler` state it |
| ImageConverter.RecordedOnlyOnSuccess | aws-lambda/img-converter/lambda_function.py:46-60 | the table changes only after a successful conversion, and then holds `{user}-{image}` with the converted variant list |
| ImageConverter.TableWrittenOnlyWhenReady | aws-lambda/img-converter/lambda_function.py:26-60 | if the table changed, the handler returned 200, the upload was deleted, and the item written has at least two variants |
| ImageConverter.SuccessCount | aws-lambda/img-converter/lambda_function.py:106-164 | a successful conversion returns at least two variants |
| ImageConverter.Handler | aws-lambda/img-converter/lambda_function.py:26-43 | the handler's result, bucket calls and table are those `Handled` predicts |
| Stores.ObjectStore.Get | aws-lambda/img-converter/lambda_function.py:68 | `get_object` gives the stored object, or fails when the bucket is unavailable or the key is absent |
| Stores.ObjectStore.Put | aws-lambda/img-converter/lambda_function.py:98-104 | a put overwrites the key and logs the call, or throws and changes nothing |
| Stores.ObjectStore.Delete | aws-lambda/img-converter/lambda_function.py:170 | a delete removes the key and logs the call, or throws and changes nothing |
| Stores.ObjectStore.DeleteMany | aws-lambda/delete-image/index.mjs:45-53 | one bulk call: it removes every deletable key and reports `Deleted` and `Errors`, or fails with nothing changed |
| Stores.Deletable | aws-lambda/delete-image/index.mjs:56-62 | `Deleted` holds exactly the requested keys the bucket accepts |
| Stores.Refused | aws-lambda/delete-image/index.mjs:56-62 | `Errors` holds exactly the requested keys the bucket refuses |
| PosixPath.Basename | aws-lambda/img-converter/lambda_function.py:91 | `os.path.basename` is the slash-free tail of the path |
| PosixPath.RStripSlashes | aws-lambda/img-converter/lambda_function.py:92 | stripping the trailing slashes of `dirname`'s head leaves a prefix that does not end in `/` |
| PosixPath.DirnameBasename | aws-lambda/img-converter/lambda_function.py:91-92 | `dirname` and `basename` of `d/b` are `d` and `b` |
| PosixPath.SplitExt | aws-lambda/img-converter/lambda_function.py:91 | `os.path.splitext` splits the name into root and extension; the extension is empty or a dot followed by no other dot |
| PosixPath.SplitExtOfName | aws-lambda/img-converter/lambda_function.py:91 | `stem.ext` splits into `stem` and `.ext` when the stem is not all dots |
| PosixPath.SplitExtNoDot | aws-lambda/img-converter/lambda_function.py:91 | a name without a dot has an empty extension |
| LegacyConverter.LocatorOf | img-converter-aws-lambda/lambda_function.py:14-19 | only `Records[0]` is read, and its `userid-imageid` key attribute must be a string |
| LegacyConverter.LocatorOfObject | img-converter-aws-lambda/lambda_function.py:14-19 | JSON `{"bucket": b, "key": k}` names the upload `(b, k)` |
| LegacyConverter.Puts | img-converter-aws-lambda/lambda_function.py:41-63 | one put per selected size |
| LegacyConverter.Admitted | img-converter-aws-lambda/lambda_function.py:41-63 | the puts before the first refused one are accepted, and the one there is refused |
| LegacyConverter.PutRun | img-converter-aws-lambda/lambda_function.py:41-63 | the loop writes a prefix of the puts; it stops with an error exactly when a put is refused |
| LegacyConverter.LegacyKeysDistinct | img-converter-aws-lambda/lambda_function.py:55 | two sizes give two different output keys |
| LegacyConverter.LegacyKey | img-converter-aws-lambda/lambda_function.py:38-55 | `{dir}/{base}_{size}.jpg`; `LegacyKeysDistinct` and `LegacyKeyIsNotUpload` state that keys differ by size and never name the upload |
| LegacyConverter.LegacyKeyIsNotUpload | img-converter-aws-lambda/lambda_function.py:38-55 | `{dir}/{base}_{size}.jpg` is never the upload's own key |
| LegacyConverter.PutsKeepOthers | img-converter-aws-lambda/lambda_function.py:41-63 | puts to other keys leave an object where it was |
| LegacyConverter.LegacyKeepsUpload | img-converter-aws-lambda/lambda_function.py:23-63 | the legacy converter never deletes or overwrites the upload |
| LegacyConverter.Legacy | img-converter-aws-lambda/lambda_function.py:23-63 | `process_image`: a get, then one put per size until the first refusal; `LegacyKeepsUpload` and `LegacyStoresEveryRendition` state its effect |
| LegacyConverter.DistinctPutsStored | img-converter-aws-lambda/lambda_function.py:41-63 | accepted puts with distinct keys each leave their body stored |
| LegacyConverter.LegacyStoresEveryRendition | img-converter-aws-lambda/lambda_function.py:31-63 | after a complete run, every selected size's JPEG is stored under its `{dir}/{base}_{size}.jpg` key |
| LegacyConverter.ProcessLegacy | img-converter-aws-lambda/lambda_function.py:23-63 | `process_image` has the effects `Legacy` predicts: a get, then the puts in size order, nothing else |
| LegacyConverter.PutEach | img-converter-aws-lambda/lambda_function.py:41-63 | the per-size loop makes the puts of `PutRun`, in order, and stops at the first refusal |
| LegacyConverter.Handler | img-converter-aws-lambda/lambda_function.py:12-20 | a bad locator fails before any bucket call; otherwise the result and effects are those of `process_image` |
| RemovalHandler.Until | aws-lambda/delete-image/index.mjs:28 | the longest prefix free of the given stop characters |
| RemovalHandler.ParseUrl | aws-lambda/delete-image/index.mjs:28 | a parsed URL has a valid scheme, a non-empty host and a pathname that starts with `/` and holds no `?` or `#` |
| RemovalHandler.ParseHierarchical | aws-lambda/delete-image/index.mjs:28 | what follows the scheme parses to a URL with that valid scheme, a non-empty host and a `/`-led pathname without `?` or `#` |
| RemovalHandler.ParseAuthority | aws-lambda/delete-image/index.mjs:28 | the host is non-empty and the path starts with `/` |
| RemovalHandler.PathOf | aws-lambda/delete-image/index.mjs:28-29 | the pathname runs to the first `?` or `#`, and is `/` when that is empty |
| RemovalHandler.KeyOfUrl | aws-lambda/delete-image/index.mjs:28-29 | a key is recovered exactly when the URL parses, and it is the pathname without its leading `/` |
| RemovalHandler.KeyOfJoinedUrl | aws-lambda/delete-image/index.mjs:26-29 | the key of `scheme://host/key` is `key`, for a valid scheme, a non-empty host without `/`, `?` or `#`, and a plain key (path characters only, no segment starting with `.`) |
| RemovalHandler.PlainKeyConcat | aws-lambda/delete-image/index.mjs:28-29 | a plain key followed by a plain key is plain |
| RemovalHandler.RelativeUrlThrows | aws-lambda/delete-image/index.mjs:28 | a URL without a scheme throws |
| RemovalHandler.ItemUrl | aws-lambda/delete-image/index.mjs:24-25 | `item.M?.url?.S` is taken exactly when it is a non-empty string |
| RemovalHandler.ItemUrls | aws-lambda/delete-image/index.mjs:23-31 | at most one URL per entry of the variant list |
| RemovalHandler.ItemUrlsAppend | aws-lambda/delete-image/index.mjs:23-31 | URLs accumulate entry by entry, in list order |
| RemovalHandler.RemovedVariants | aws-lambda/delete-image/index.mjs:13-23 | the variant list of a `REMOVE` record's old image; empty for any other record; `NonRemoveContributesNothing` states it |
| RemovalHandler.BatchUrls | aws-lambda/delete-image/index.mjs:11-33 | the URLs of a batch, record by record; `BatchUrlsAppend` states that they accumulate in batch order |
| RemovalHandler.KeysOf | aws-lambda/delete-image/index.mjs:23-31 | the keys behind the URLs in order, or a throw; `KeysAccumulate` and `RemovedItemKeys` state it |
| RemovalHandler.BatchUrlsAppend | aws-lambda/delete-image/index.mjs:11-33 | URLs accumulate record by record, in batch order |
| RemovalHandler.NonRemoveContributesNothing | aws-lambda/delete-image/index.mjs:13-15 | a record that is not a `REMOVE` event adds no URL |
| RemovalHandler.KeysAccumulate | aws-lambda/delete-image/index.mjs:9-33 | the keys of a batch are those of its first part followed by those of the rest, duplicates kept; one bad URL anywhere makes the whole batch throw |
| RemovalHandler.ItemUrlsOfVariants | aws-lambda/delete-image/index.mjs:17-25 | the URLs read back from a stored variant list are the variants' urls, in order |
| RemovalHandler.RemovedItemKeys | aws-lambda/delete-image/index.mjs:17-31 | removing an item whose urls are `scheme://host/k` for plain keys k gathers exactly those keys, in list order |
| RemovalHandler.Removed | aws-lambda/delete-image/index.mjs:35-73 | it throws exactly when some URL does not parse; it answers 200 "No files to delete" exactly when there is no URL; it makes at most one bulk delete, and makes it exactly when the bucket is reachable, there are URLs and none threw |
| RemovalHandler.GatherKeys | aws-lambda/delete-image/index.mjs:9-33 | the outer loop gathers the keys of the whole batch, or throws at the first bad URL |
| RemovalHandler.GatherItemKeys | aws-lambda/delete-image/index.mjs:23-32 | the inner loop appends one record's keys to those gathered so far |
| RemovalHandler.GatherStep | aws-lambda/delete-image/index.mjs:23-32 | one entry adds its key, adds nothing when it has no url, or makes the whole list throw |
| RemovalHandler.GatherFails | aws-lambda/delete-image/index.mjs:28 | once a URL has thrown, the rest of the list cannot recover |
| RemovalHandler.Handler | aws-lambda/delete-image/index.mjs:6-74 | the response and the single bulk delete, or none, are those `Removed` predicts |
| Wrappers.MapAll | aws-lambda/delete-image/index.mjs:23-31 | converting each URL gives one key per URL |
| Wrappers.MapAllSpec | aws-lambda/delete-image/index.mjs:23-31 | conversion succeeds exactly when every URL converts, and then gives the keys in URL order |
| Wrappers.MapAllAppend | aws-lambda/delete-image/index.mjs:11-33 | converting two lists in a row is converting their concatenation |
| Wrappers.FindIndex | webapp/app/dashboard/images/page.tsx:30 | `findIndex`: the first position satisfying the predicate, or none when no element does |
| ServerActions.StripMarks | webapp/app/actions/aws.ts:30 | no combining mark (U+0300 to U+036F) is left |
| ServerActions.StripMarksAppend | webapp/app/actions/aws.ts:30 | stripping distributes over concatenation, so every other character is kept in order and with its count |
| ServerActions.StripMarksSpec | webapp/app/actions/aws.ts:30 | a character is in the result exactly when it is in the name and is not a combining mark |
| ServerActions.ReplaceUnsafe | webapp/app/actions/aws.ts:31 | same length, only `[a-zA-Z0-9._-]`; a safe character stays in place and every other one becomes `_` |
| ServerActions.Collapse | webapp/app/actions/aws.ts:32 | no `__` is left, the end characters are kept, and the safe alphabet is preserved |
| ServerActions.CollapseSpec | webapp/app/actions/aws.ts:32 | only underscores go: the characters other than `_` are kept, in order and with their count |
| ServerActions.CollapseRun | webapp/app/actions/aws.ts:32 | `__` collapses exactly as `_` does wherever it stands, so with `CollapseKeeps` every run of `_` becomes exactly one |
| ServerActions.Trim | webapp/app/actions/aws.ts:33 | without `__`, the result neither starts nor ends with `_` |
| ServerActions.TrimSpec | webapp/app/actions/aws.ts:33 | exactly one leading `_` is cut when there is one, then exactly one trailing `_` when there is one, and nothing else |
| ServerActions.Lower | webapp/app/actions/aws.ts:34 | the length is kept; `A`-`Z` become `a`-`z` in place and every other character is unchanged, so a safe name comes out in `[a-z0-9._-]` |
| ServerActions.Prepare | webapp/app/actions/aws.ts:28-33 | after the first four stages the name is in the safe alphabet, without `__` |
| ServerActions.Sanitise | webapp/app/actions/aws.ts:28-35 | the sanitised name uses only `[a-z0-9._-]`, is at most 200 characters, never holds `__` and never starts with `_` |
| ServerActions.StripMarksKeeps | webapp/app/actions/aws.ts:30 | a name already in `[a-z0-9._-]` loses nothing |
| ServerActions.ReplaceUnsafeKeeps | webapp/app/actions/aws.ts:31 | a name of safe characters is unchanged |
| ServerActions.CollapseKeeps | webapp/app/actions/aws.ts:32 | a name without `__` is unchanged |
| ServerActions.TrimKeeps | webapp/app/actions/aws.ts:33 | a name without a leading or trailing `_` is unchanged |
| ServerActions.LowerKeeps | webapp/app/actions/aws.ts:34 | a lower-case name is unchanged |
| ServerActions.PrepareKeeps | webapp/app/actions/aws.ts:28-33 | a lower-case name without `__` passes the first stages unchanged |
| ServerActions.SanitiseClean | webapp/app/actions/aws.ts:28-35 | a clean name only gets cut to 200 characters |
| ServerActions.SanitiseDropsTrailing | webapp/app/actions/aws.ts:33-35 | a sanitised name ending in `_` loses that `_` when it is sanitised again |
| ServerActions.TrailingUnderscoreAfterCut | webapp/app/actions/aws.ts:33-35 | some name sanitises to a result that ends in `_` and is not a fixed point of the sanitiser |
| ServerActions.Stamp | webapp/app/actions/aws.ts:37-39 | the stamped timestamp keeps its length, holds no `:` or `.`, and keeps every other character |
| ServerActions.StampKeepsAbsent | webapp/app/actions/aws.ts:37-39 | a character other than `-` that is absent from the timestamp stays absent |
| ServerActions.UploadName | webapp/app/actions/aws.ts:39 | the name part is never empty (`file` stands in), holds no `/`, does not start with `_` and uses only `[a-z0-9._-]` |
| ServerActions.FileKeySegments | webapp/app/actions/aws.ts:37-39 | the upload key has exactly the three segments `instantuploads`, the user id and `<stamp>_<name>` |
| ServerActions.FileKey | webapp/app/actions/aws.ts:37-39 | `instantuploads/<userId>/<stamp>_<name>`; `FileKeySegments` and `FileKeyPrefix` state its shape |
| ServerActions.KeySegments | webapp/app/actions/aws.ts:37-39 | the same for any slash-free stamp and name |
| ServerActions.FileKeyPrefix | webapp/app/actions/aws.ts:37-39 | the upload key lies under `instantuploads/<userId>/` |
| ServerActions.FetchPresignedUrl | webapp/app/actions/aws.ts:14-42 | without a session it throws `Unauthorized`; otherwise the key lies under the user's upload prefix |
| ServerActions.FindRow | webapp/app/actions/aws.ts:52-61 | `findFirst`: the first row matching both image id and user id, or none when no row matches |
| ServerActions.WithoutRow | webapp/app/actions/aws.ts:86-90 | deleting a row by id keeps exactly the other rows |
| ServerActions.SumAppend | webapp/app/actions/aws.ts:71-76 | the fold over sizes is additive over concatenation |
| ServerActions.SumPositive | webapp/app/actions/aws.ts:93 | the total is positive exactly when some size is |
| ServerActions.BytesToDeduct | webapp/app/actions/aws.ts:71-76 | 0 without a variant list, otherwise the sum of the variant sizes |
| ServerActions.Backend.DeleteImage | webapp/app/actions/aws.ts:44-107 | no session or no matching row: a throw with nothing changed; otherwise the table item delete, then the row delete, then a decrement of the user's usage by the variant total when that total is positive; a positive total with no usage row fails with "Record to update not found" after the two deletes |
| Gallery.SmallestImage | webapp/app/dashboard/images/page.tsx:27-32 | nothing for an absent or empty list; otherwise the first entry whose url contains `/256.`, or the first entry; always an element of the list |
| Gallery.DropFirstPart | webapp/app/dashboard/images/page.tsx:35-39 | dropping the first `_`-separated part and rejoining gives what follows the first `_` |
| Gallery.ImageName | webapp/app/dashboard/images/page.tsx:35-39 | the name is what follows the first `_` when that is non-empty, and the whole id otherwise |
| Gallery.NameWithoutUnderscore | webapp/app/dashboard/images/page.tsx:35-39 | an id without `_` is shown as it is |
| Gallery.NameAfterPrefix | webapp/app/dashboard/images/page.tsx:35-39 | for `T_r` with T free of `_` and r non-empty, the name is r |
| Gallery.SizeCount | webapp/app/dashboard/images/page.tsx:94 | `convertedImageUrls?.length \|\| 0`; `Pipeline.GalleryCountOfConverted` states the count of a converted image |
| UploadForm.PickFile | webapp/app/dashboard/upload/upload-form.tsx:68-79 | the first PNG or JPEG file in list order is taken; it is rejected when over 10 MiB; no such file means nothing is taken |
| UploadForm.SizeLimitInclusive | webapp/app/dashboard/upload/upload-form.tsx:69-79 | exactly 10 MiB is accepted, one byte more is rejected |
| UploadForm.LastPiece | webapp/app/dashboard/upload/upload-form.tsx:136 | `split(sep).pop()` holds no separator |
| UploadForm.FormImageId | webapp/app/dashboard/upload/upload-form.tsx:136 | the confirmed id is the last `/` segment of the key up to its first `.` |
| UploadForm.Form.HandleDrag | webapp/app/dashboard/upload/upload-form.tsx:53-61 | `dragenter` or `dragover` sets the drag flag, `dragleave` clears it, other events leave it, and nothing else changes |
| UploadForm.Form.Take | webapp/app/dashboard/upload/upload-form.tsx:68-82 | the chosen file replaces the selection; a too-large or missing image only raises its alert |
| UploadForm.Form.HandleDrop | webapp/app/dashboard/upload/upload-form.tsx:63-84 | a drop clears the drag flag, then takes the files as above |
| UploadForm.Form.HandleFileSelect | webapp/app/dashboard/upload/upload-form.tsx:86-108 | a selection takes the files as above and leaves the drag flag alone |
| UploadForm.Form.RemoveFile | webapp/app/dashboard/upload/upload-form.tsx:110-112 | the selection is cleared and nothing else changes |
| UploadForm.Form.Finish | webapp/app/dashboard/upload/upload-form.tsx:133-144 | on a failed response an alert; on an ok one the id is confirmed and the dialog opens with it, unless `confirmUpload` throws, which escapes with uploading, the file, the dialog and the confirmed ids unchanged; without a throw uploading ends and the file is cleared |
| UploadForm.Form.HandleUpload | webapp/app/dashboard/upload/upload-form.tsx:114-145 | nothing without a file; a missing session, or a `confirmUpload` throw after an ok response, escapes with uploading left true, the file kept and no dialog; otherwise it ends with uploading false and no file, confirming the form's id and opening the dialog on an ok response, or raising the failure alert |
| UploadPage.Images | webapp/app/dashboard/upload/page.tsx:36-38 | the kept files are exactly those whose type starts with `image/` |
| UploadPage.ImagesAppend | webapp/app/dashboard/upload/page.tsx:36-39 | filtering distributes over concatenation |
| UploadPage.ImagesKeepsImages | webapp/app/dashboard/upload/page.tsx:36-38 | a list of images is kept whole |
| UploadPage.Without | webapp/app/dashboard/upload/page.tsx:56 | removing index i drops exactly that element and keeps the order of the others; an out-of-range index changes nothing |
| UploadPage.Page.HandleDrag | webapp/app/dashboard/upload/page.tsx:20-28 | the drag flag follows the event type as in the form, and the list is unchanged |
| UploadPage.Page.Append | webapp/app/dashboard/upload/page.tsx:36-39 | the loop appends the incoming images after the existing files |
| UploadPage.Page.HandleDrop | webapp/app/dashboard/upload/page.tsx:30-41 | a drop clears the drag flag and appends the images |
| UploadPage.Page.HandleFileSelect | webapp/app/dashboard/upload/page.tsx:43-53 | a selection appends the images |
| UploadPage.Page.RemoveFile | webapp/app/dashboard/upload/page.tsx:55-57 | the list loses exactly index i |
| UploadPage.Page.ClearAll | webapp/app/dashboard/upload/page.tsx:160 | the list is emptied |
| UploadPage.Page.HandleUpload | webapp/app/dashboard/upload/page.tsx:59-68 | nothing on an empty list; otherwise it ends with an empty list and uploading false |
| Text.Split | aws-lambda/s3-instantuploads-watcher/index.mjs:18 | `split` gives at least one part and no part holds the separator |
| Text.SplitLength | aws-lambda/s3-instantuploads-watcher/index.mjs:18-19 | the number of parts is one more than the number of separators |
| Text.JoinSplit | webapp/app/dashboard/images/page.tsx:37-38 | joining the parts of a split gives the string back |
| Text.SplitJoin | webapp/app/dashboard/images/page.tsx:37-38 | splitting a join of separator-free parts gives the parts back |
| Text.SplitHead | webapp/app/dashboard/upload/upload-form.tsx:136 | the first part runs to the first separator |
| Text.IndexOf | webapp/app/dashboard/upload/upload-form.tsx:136 | the first occurrence, or -1 when there is none |
| Text.LastIndexOf | aws-lambda/s3-instantuploads-watcher/index.mjs:26 | the last occurrence, or -1 when there is none |
| Text.FirstIsLast | aws-lambda/s3-instantuploads-watcher/index.mjs:26 | the first and last occurrences agree exactly when the character does not occur twice |
| Text.FindFrom | aws-lambda/img-converter/lambda_function.py:94 | the first occurrence of a pattern at or after a position |
| Text.ReplaceFirst | aws-lambda/img-converter/lambda_function.py:94 | `replace(old, new, 1)` replaces the first occurrence only, or nothing when there is none |
| Text.NatToString | aws-lambda/img-converter/lambda_function.py:19 | decimal digits without a leading zero |
| Text.DecimalValueOfNatToString | aws-lambda/img-converter/lambda_function.py:19 | the digits read back as the number |
| Text.NatToStringInjective | aws-lambda/img-converter/lambda_function.py:147 | different numbers print differently |
| Pipeline.WatcherItemOfUploadKey | aws-lambda/s3-instantuploads-watcher/index.mjs:15-34 | the key the web tier issues comes back from its notification intact, and the watcher files it under the user and the stamped name |
| Pipeline.WatcherItemOfKey | aws-lambda/s3-instantuploads-watcher/index.mjs:15-34 | the same for any slash-free user, stamp and name |
| Pipeline.StampedImageId | aws-lambda/s3-instantuploads-watcher/index.mjs:26 | the watcher's id of `<stamp>_<name>` is the stamp, `_` and the name without its last extension |
| Pipeline.GalleryNameOfStampedId | webapp/app/dashboard/images/page.tsx:35-39 | the gallery shows the name without its extension, except for a name whose only dot leads, which shows `<stamp>_` |
| Pipeline.GalleryNameOfUpload | webapp/app/dashboard/images/page.tsx:35-39 | the same, starting from the file name the user uploaded |
| Pipeline.FormIdOfKey | webapp/app/dashboard/upload/upload-form.tsx:136 | the form's id of an upload key is the last segment up to its first dot |
| Pipeline.FirstAndLastCut | webapp/app/dashboard/upload/upload-form.tsx:136 | cutting at the first and at the last dot agree exactly when the name has no two dots |
| Pipeline.FormAndWatcherIds | webapp/app/dashboard/upload/upload-form.tsx:136 | the form's and the watcher's ids agree exactly when the name has no two dots |
| Pipeline.FormAndWatcherIdsOfUpload | webapp/app/dashboard/upload/upload-form.tsx:136-139 | the same for the key built from an uploaded file name |
| Pipeline.TwoDotsSplitTheIds | webapp/app/dashboard/upload/upload-form.tsx:136-139 | uploading `a.b.png` makes the form confirm an id the watcher never writes |
| Pipeline.CdnKeyRoundTrip | aws-lambda/delete-image/index.mjs:28-29 | the delete handler recovers exactly the key the converter put into a CDN URL, for a plain key |
| Pipeline.OutputKeysPlain | aws-lambda/img-converter/lambda_function.py:97-147 | every output key is plain when the upload's output folder is plain and its extension holds only path characters and no `/` |
| Pipeline.RemovalDeletesConvertedObjects | aws-lambda/delete-image/index.mjs:11-53 | removing a converted item makes one bulk delete of exactly the keys the converter wrote, in order, when the output folder and the extension are plain |
| Pipeline.RemovalOfRecordedOutputs | aws-lambda/delete-image/index.mjs:11-53 | the same for any recorded outputs with plain keys whose urls are CDN urls of their keys |
| Pipeline.GalleryCountOfConverted | webapp/app/dashboard/images/page.tsx:94 | a converted image shows 1 + \|sizes\| sizes, at least two |
| Pipeline.RenditionUrlIsThumbnail | webapp/app/dashboard/images/page.tsx:30 | the 256 rendition's URL contains `/256.` |
| Pipeline.GalleryThumbnailOfConverted | webapp/app/dashboard/images/page.tsx:27-32 | for an image of at least 256 pixels the thumbnail is the 256 rendition, unless the original's own URL contains `/256.` |
| Pipeline.ThumbnailOfList | webapp/app/dashboard/images/page.tsx:30-31 | with a thumbnail second, the choice is the first entry if it also qualifies, otherwise the second |

## Left out

- Stores.ObjectStore.DeleteMany: the limit of 1000 keys per `DeleteObjects` call is not modelled. With more keys the real call fails, and the delete handler answers 500 (`aws-lambda/delete-image/index.mjs:64-72`); the model instead removes every deletable key and reports each one. One removed item has at most six variants, so only a stream batch of many removed items can reach the limit.
- Image decoding and encoding in the converters (PIL's `open`, `exif_transpose`, `convert`, `thumbnail`, `save`) is foreign code. It becomes two parameters. `facts` gives the mode, the transparency flag and the size, or `None` when the image does not decode. `render` gives each size's dimensions and encoded bytes.
- The AWS, Prisma and session clients are modelled as state, not network behaviour. The bucket and the table are classes holding maps, and the bucket logs its calls. The session, the clock's ISO timestamp and the response of the browser's upload POST are parameters.
- The bucket names (`IMAGE_BUCKET`, `S3_BUCKET_NAME`, the bucket in the legacy locator) are not modelled: the store passed in is the bucket.
- JSON parsing in the legacy converter is a parameter.
- Unicode NFD normalisation (`webapp/app/actions/aws.ts:29`) is not modelled. The sanitiser starts from the normalised text.
- ServerActions.Lower: `toLowerCase` is modelled for ASCII letters only. Other characters are replaced by `_` before lowering, so this loses nothing for the result.
- The sanitiser's regular expressions work on UTF-16 code units; the model works on code points. They differ only for characters outside the Basic Multilingual Plane, which both turn into underscores, collapsed to one.
- RemovalHandler.ParseUrl parses only `scheme://host/path[?query][#fragment]` of the WHATWG URL Standard. Other forms are modelled as throwing, for example `mailto:` or a special scheme written without `//`. Percent-encoding, `\` as `/`, dot segments, ports, credentials and host validation and normalisation are not modelled. The pathname is therefore faithful only for plain keys, so `RemovalHandler.KeyOfJoinedUrl`, `RemovalHandler.RemovedItemKeys` and the `Pipeline` removal lemmas require `RemovalHandler.PlainKey`. A key outside that domain is not read back as itself by the real parser.
- RemovalHandler.ParseHierarchical: the part after the scheme is read only in its `//host/path` form; the other forms of the WHATWG URL Standard are modelled as throwing.
- RemovalHandler.ParseAuthority: the authority is taken whole as the host; ports, credentials, host validation and lower-casing are not modelled.
- RemovalHandler.PathOf: the path is copied as it is; percent-encoding, `\` as `/` and dot-segment resolution are not modelled, which is why the round-trip lemmas require plain keys.
- ImageConverter.FormatSizeValue: `format_size` divides floats; the model rounds the exact ratio to nearest with ties to even. For sizes below 2^53 bytes, division by 1024 or 1048576 is exact in binary floating point, and Python's `.1f` and `.2f` round that exact value half to even, so the two agree there. Larger sizes are not modelled as floats.
- `deleteImage` reads the table item through helpers the repository does not contain (`imagesFromDynamodb`, `deleteImageFromDynamoDB`). The variant sizes they return are a parameter. The table delete is an entry in the effect log.
- ServerActions.BytesToDeduct: the model adds the sizes as numbers. The converter stores each size as a text label such as `"12.3KB"` (`aws-lambda/img-converter/lambda_function.py:110`). If the table helper hands those strings back, the `reduce` at `webapp/app/actions/aws.ts:73-75` concatenates them, the `> 0` test compares `NaN`, and the usage is never decremented. The model does not capture this string behaviour.
- The dashboard's storage display (`webapp/app/dashboard/page.tsx`) is not part of this model. Its comment treats the usage as megabytes, while `deleteImage` decrements bytes.
- The Prisma `update` on a missing usage row throws "Record to update not found". It is modelled as a `Failure` result after the earlier deletes.
- Concurrency is not modelled, including the race between the watcher's put and the converter's put of the same item.
- Logging, `redirect`, the alerts' display, the object-URL preview and its cleanup, and the JSX rendering are not modelled.
- The form resets the file input (`e.target.value = ""`), which has no effect on the modelled state.
- UploadForm.Form.HandleUpload: a network rejection of the upload `fetch` is not modelled; the response is ok or not ok. The presigned POST's form fields are not modelled.
- `confirmUpload` (a database insert) is recorded as the list of confirmed ids; whether it throws is a parameter of `UploadForm.Form.HandleUpload`, not a model of the server's session or the database.
- The upload page's two-second simulated delay is not modelled.
