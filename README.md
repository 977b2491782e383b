# Bastille core, modelled in Dafny

This project models six classes of the Bastille web-application library:

- **CachedResource** keeps an HTTP response in a page cache, either gzipped or
  not. It can give back its body in either representation and copies its
  headers onto a later response, adjusting the ETag for negotiated gzip content.
- **GZIPUtils** recognises a gzip stream by its magic bytes, compresses and
  decompresses bodies, and holds the sizes used to decide whether a
  compressed body is "empty".
- **SizeEstimator** estimates the memory and disk footprint of a cache. It
  measures a sample by walking the object graph of the cached values, remembers
  the sample per cache, and scales it linearly to the current number of
  elements.
- **Base64** is an encoder and decoder for RFC 3548 Base64 in three alphabets
  (standard, URL-safe, and "ordered"). It has array codecs and two stream
  filters, `Base64.InputStream` and `Base64.OutputStream`.
- **PSResource** names a resource on a PageSeeder server. Its `toURL` builds the
  URL from configuration, the resource name, an optional session and its
  parameters; `PSResource.Builder` assembles one.
- **GetXMLFileFromRelativePathParameter.addXMLExtension** normalises a relative
  file parameter to a `.xml` path and refuses parent references.

Modules, one per file:

| file | module |
|---|---|
| `common.dfy` | `Common`: Java vocabulary (bytes as `bv8`, `null` as `Option`, exceptions as a datatype, the `String` methods the core calls) |
| `gzip_utils.dfy` | `GZIPUtils` |
| `cached_resource.dfy` | `CachedResources` |
| `size_estimator.dfy` | `SizeEstimation` |
| `base64_tables.dfy` | `Base64Tables`: option bits, alphabets and decoding tables |
| `base64_codec.dfy` | `Base64Codec`: `encode3to4`, `decode4to3`, `encodeBytesToBytes`, `decode` |
| `base64_output_stream.dfy` | `Base64OutputStream` |
| `base64_input_stream.dfy` | `Base64InputStream` |
| `ps_resource.dfy` | `PageSeederResources` |
| `xml_extension.dfy` | `XMLExtension` |

Conventions:

- A Java method that returns a value or throws returns `Result<T>` here.
- An object whose fields the Java code updates is a `class`. Its methods are
  proved to change exactly what a specification function describes, and the
  properties are proved about that function.
- Code the core calls but does not contain is passed in as a function
  parameter:
  - deflate and inflate (`java.util.zip`);
  - the HTTP date parser;
  - `URLEncoder.encode`;
  - the configuration properties;
  - the iteration order of a `HashMap`.

## Model

| member | source | states |
|---|---|---|
| GZIPUtils.IsGzipped | src/org/weborganic/bastille/cache/util/GZIPUtils.java:70-76 | True exactly for an array of at least two bytes that starts with the gzip magic bytes 0x1f 0x8b. `null` and shorter arrays are not gzipped. |
| GZIPUtils.ShouldGzippedBodyBeZero | src/org/weborganic/bastille/cache/util/GZIPUtils.java:88-95 | True exactly when the compressed body has the size of an empty payload's gzip stream. |
| GZIPUtils.Gzip | src/org/weborganic/bastille/cache/util/GZIPUtils.java:124-133 | Bytes already starting with the gzip magic number are refused with IOException, and `null` is a NullPointerException. Any other body is compressed. |
| GZIPUtils.Inflated | src/org/weborganic/bastille/cache/util/GZIPUtils.java:144-159 | The inflation loop fails only with IOException. |
| GZIPUtils.InflatedIsConcatenation | src/org/weborganic/bastille/cache/util/GZIPUtils.java:149-155 | When reads return chunks and then end of stream, ungzip returns the concatenation of the chunks in order. |
| GZIPUtils.CorruptReadFails | src/org/weborganic/bastille/cache/util/GZIPUtils.java:149-158 | A corrupt read after any number of chunks makes ungzip throw IOException. |
| GZIPUtils.PrependTwice | src/org/weborganic/bastille/cache/util/GZIPUtils.java:149-155 | Appending to the output stream chunk by chunk equals appending the chunks joined. |
| GZIPUtils.Ungzip | src/org/weborganic/bastille/cache/util/GZIPUtils.java:144-159 | The read loop returns exactly what the inflation script yields; `null` is a NullPointerException. |
| CachedResources.IsBodyParameterGzipped | src/org/weborganic/bastille/cache/util/CachedResource.java:294-299 | True exactly when some header marks the body as gzip-encoded; `null` headers throw. |
| CachedResources.ToStorableContent | src/org/weborganic/bastille/cache/util/CachedResource.java:262-285 | The stored content is the stored-content function of body, storage choice and headers; `null` headers throw. |
| CachedResources.New | src/org/weborganic/bastille/cache/util/CachedResource.java:76-86 | The constructor keeps status, content type, storage choice and headers, and stores the storable content. It fails exactly as toStorableContent fails. |
| CachedResources.ConstructionFailures | src/org/weborganic/bastille/cache/util/CachedResource.java:262-285 | Construction fails in exactly two cases: a gzipped body that is to be stored ungzipped (IllegalArgumentException), and a missing body that is to be stored gzipped without the gzip header. |
| CachedResources.GetGzippedBody | src/org/weborganic/bastille/cache/util/CachedResource.java:114-120 | The stored content when the resource stores gzipped, otherwise `null`. |
| CachedResources.GetUngzippedBody | src/org/weborganic/bastille/cache/util/CachedResource.java:131-137 | Ungzips gzipped storage; plain storage is returned unchanged. |
| CachedResources.HasGzippedBody | src/org/weborganic/bastille/cache/util/CachedResource.java:142-144 | A body is stored and storage is gzipped; `BodyRepresentations` ties it to the gzipped accessor. |
| CachedResources.HasUngzippedBody | src/org/weborganic/bastille/cache/util/CachedResource.java:149-151 | A body is stored and storage is plain; `BodyRepresentations` shows the two never hold together. |
| CachedResources.BodyRepresentations | src/org/weborganic/bastille/cache/util/CachedResource.java:142-151 | hasGzippedBody and hasUngzippedBody never both hold, and each agrees with its getter returning non-null. |
| CachedResources.StorageChoice | src/org/weborganic/bastille/cache/util/CachedResource.java:76-151 | After construction: plain storage gives back the body itself; gzipped storage gives the body when it arrived gzipped, or its compression. A body that was already gzipped but not declared so leaves neither body. |
| CachedResources.IsOK | src/org/weborganic/bastille/cache/util/CachedResource.java:159-161 | The stored status is 200. |
| CachedResources.FirstNamed | src/org/weborganic/bastille/cache/util/CachedResource.java:170-180 | The index of the first header with the given name (case-insensitive when asked), or -1 when there is none. |
| CachedResources.GetLastModified | src/org/weborganic/bastille/cache/util/CachedResource.java:168-183 | The first Last-Modified header (any case) decides the value: a date header's value, or a string parsed as an HTTP date. -1 when there is none. |
| CachedResources.GetETag | src/org/weborganic/bastille/cache/util/CachedResource.java:190-197 | The value of the first header named exactly "ETag", or `null`. |
| CachedResources.AdjustETag | src/org/weborganic/bastille/cache/util/CachedResource.java:215-221 | As written. An empty ETag served gzipped throws StringIndexOutOfBounds, and nothing else throws. Served plain, a value ending in `-gzip"` whose text before that holds no other `-gzip"` becomes that text, losing the quote; a value without the marker is kept. Served gzipped, a value with the marker is kept; any other keeps all but its last character and gains `-gzip"`. |
| CachedResources.AdjustETagStripLosesQuote | src/org/weborganic/bastille/cache/util/CachedResource.java:216-217 | Stripping `"abc-gzip"` leaves `"abc` without its closing quote. |
| CachedResources.AdjustETagRetagsDamaged | src/org/weborganic/bastille/cache/util/CachedResource.java:218-219 | Re-tagging the damaged `"abc` drops its last letter: `"ab-gzip"`. |
| CachedResources.AdjustETagDoesNotToggle | src/org/weborganic/bastille/cache/util/CachedResource.java:215-220 | Stripping then re-tagging does not restore the original ETag. |
| CachedResources.StripSuffixExample | src/org/weborganic/bastille/cache/util/CachedResource.java:217 | `replace` removes the marker together with the closing quote. |
| CachedResources.StripWholeSuffix | src/org/weborganic/bastille/cache/util/CachedResource.java:217 | A value that is only the marker becomes empty. |
| CachedResources.StripFinalMarker | src/org/weborganic/bastille/cache/util/CachedResource.java:217 | Text without the marker, followed by the marker, is stripped back to that text. |
| CachedResources.StripOnlyMarker | src/org/weborganic/bastille/cache/util/CachedResource.java:217 | When the text before the marker has no '-', stripping leaves exactly that text. |
| CachedResources.AdjustETagFixed | src/org/weborganic/bastille/cache/util/CachedResource.java:215-221 | Corrected adjustment: stripping removes `-gzip` and keeps the closing quote (the result is five characters shorter and still ends in `"`). |
| CachedResources.TagThenStrip | src/org/weborganic/bastille/cache/util/CachedResource.java:215-221 | With the corrected adjustment, tagging a quoted ETag and stripping it gives the ETag back. |
| CachedResources.StripThenTag | src/org/weborganic/bastille/cache/util/CachedResource.java:215-221 | With the corrected adjustment, stripping a gzip ETag and tagging it again gives it back. |
| CachedResources.CopyHeader | src/org/weborganic/bastille/cache/util/CachedResource.java:209-246 | One header: a set the first time its name is seen (case-insensitive), an add afterwards with an ETag adjusted by the adjustment as written. An unsupported type throws IllegalArgumentException. |
| CachedResources.CopyHeadersTo | src/org/weborganic/bastille/cache/util/CachedResource.java:205-248 | The response calls and the exception are exactly those the header emission function describes, with the ETag adjustment as written. |
| CachedResources.EmitCallPerHeader | src/org/weborganic/bastille/cache/util/CachedResource.java:205-248 | For the adjustment as written and for the corrected one: without an exception there is one call per header, in order and under the header's name. It is a set exactly for the first header of that name; adds carry the value that adjustment gives. |
| CachedResources.EmitCompletes | src/org/weborganic/bastille/cache/util/CachedResource.java:205-248 | With only supported headers, and no empty ETag when gzipped, copying never throws, with either adjustment. |
| CachedResources.EmitFailsOnUnsupported | src/org/weborganic/bastille/cache/util/CachedResource.java:244-245 | An unsupported header throws, and no call is made for it or for any header after it. |
| CachedResources.RepeatedETagCopied | src/org/weborganic/bastille/cache/util/CachedResource.java:209-226 | Copying two ETags for the plain variant, the second `"abc-gzip"`, adds `"abc` without its closing quote. |
| CachedResources.RepeatedETagCopiedFixed | src/org/weborganic/bastille/cache/util/CachedResource.java:209-226 | With the corrected adjustment the same copy adds `"abc"`. |
| CachedResources.RepeatedETagSteps | src/org/weborganic/bastille/cache/util/CachedResource.java:209-226 | Two ETags: the first is set verbatim, the second added with its adjusted text. |
| CachedResources.RepeatedHeaderSetThenAdd | src/org/weborganic/bastille/cache/util/CachedResource.java:211-226 | A repeated header name is set once, then added. |
| CachedResources.FirstETagVerbatim | src/org/weborganic/bastille/cache/util/CachedResource.java:223-225 | The first ETag is copied verbatim, whatever the negotiated encoding. |
| SizeEstimation.WrapLong | src/main/java/org/pageseeder/bastille/cache/util/SizeEstimator.java:322 | Java `long` arithmetic: the result is in range, equals the input when that is in range, and is congruent modulo 2^64. |
| SizeEstimation.Estimate | src/main/java/org/pageseeder/bastille/cache/util/SizeEstimator.java:319-324 | `Sample.estimate`: the sampled count gives back the measured size, an empty sample gives 0, and otherwise the wrapped `long` product is divided (see the lemmas that follow). |
| SizeEstimation.EstimateAnchors | src/main/java/org/pageseeder/bastille/cache/util/SizeEstimator.java:319-324 | A sample estimates its own element count at exactly its byte size; an empty sample estimates 0. |
| SizeEstimation.EstimateIsProportional | src/main/java/org/pageseeder/bastille/cache/util/SizeEstimator.java:319-324 | Without overflow, the estimate is bytesize·n/elements rounded down. |
| SizeEstimation.EstimateMonotone | src/main/java/org/pageseeder/bastille/cache/util/SizeEstimator.java:319-324 | Without overflow, more elements never give a smaller estimate. |
| SizeEstimation.EstimateScales | src/main/java/org/pageseeder/bastille/cache/util/SizeEstimator.java:319-324 | Without overflow, k times the sampled count is estimated at exactly k times the sampled size. |
| SizeEstimation.EstimateOverflows | src/main/java/org/pageseeder/bastille/cache/util/SizeEstimator.java:322 | `bytesize * elements` wraps: a sample of 2^62 bytes for 3 elements estimates a negative size for 2 elements. |
| SizeEstimation.EstimateFrom | src/main/java/org/pageseeder/bastille/cache/util/SizeEstimator.java:275-282 | -1 for a cache without a sample; the sample's own size at its own count. |
| SizeEstimation.SizeOfPrimitive | src/main/java/org/pageseeder/bastille/cache/util/SizeEstimator.java:184-194 | Only void is 0 bytes; only long and double are 8 bytes; every size is 0, 1, 2, 4 or 8. |
| SizeEstimation.Walk | src/main/java/org/pageseeder/bastille/cache/util/SizeEstimator.java:122-177 | The size the recursive walk charges a value and the identity set after it. The lemmas that follow state its properties. |
| SizeEstimation.WalkGrowsVisited | src/main/java/org/pageseeder/bastille/cache/util/SizeEstimator.java:122-177 | The walk only adds to the identity set, and only objects of the heap. |
| SizeEstimation.ItemsGrowVisited | src/main/java/org/pageseeder/bastille/cache/util/SizeEstimator.java:135-149 | The same for a collection's items. |
| SizeEstimation.EntriesGrowVisited | src/main/java/org/pageseeder/bastille/cache/util/SizeEstimator.java:140-144 | The same for a map's keys and values. |
| SizeEstimation.FieldsGrowVisited | src/main/java/org/pageseeder/bastille/cache/util/SizeEstimator.java:154-172 | The same for an object's fields. |
| SizeEstimation.ChainGrowsVisited | src/main/java/org/pageseeder/bastille/cache/util/SizeEstimator.java:150-175 | The same along the superclass chain. |
| SizeEstimation.WalkMarks | src/main/java/org/pageseeder/bastille/cache/util/SizeEstimator.java:122-126 | A walked object is recorded, and walking it again costs nothing and changes nothing. |
| SizeEstimation.SharedValueChargedOnce | src/main/java/org/pageseeder/bastille/cache/util/SizeEstimator.java:92-108 | A value held twice by a cache is counted once. |
| SizeEstimation.SelfContainingCollection | src/main/java/org/pageseeder/bastille/cache/util/SizeEstimator.java:122-139 | A collection that contains itself terminates, at size 0. |
| SizeEstimation.StringCharge | src/main/java/org/pageseeder/bastille/cache/util/SizeEstimator.java:133-134 | A string costs two bytes per character. |
| SizeEstimation.WrapInt | src/main/java/org/pageseeder/bastille/cache/util/SizeEstimator.java:134 | Java `int` arithmetic: the result is in range, equals the exact value when that is in range, and is congruent to it modulo 2^32. |
| SizeEstimation.StringChargeAsInt | src/main/java/org/pageseeder/bastille/cache/util/SizeEstimator.java:133-134 | Java's `int` charge `length() * 2` equals the model's exactly below 2^30 characters; at 2^30 it wraps to -2^31. |
| SizeEstimation.DepthLimit | src/main/java/org/pageseeder/bastille/cache/util/SizeEstimator.java:123-124 | Beyond depth 20 nothing is counted or visited. |
| SizeEstimation.SkippedFieldsIgnored | src/main/java/org/pageseeder/bastille/cache/util/SizeEstimator.java:154-155 | Static and transient fields cost nothing. |
| SizeEstimation.DeniedFieldsCharged | src/main/java/org/pageseeder/bastille/cache/util/SizeEstimator.java:156-170 | Each field whose read is denied costs 50 bytes. |
| SizeEstimation.FieldsAppend | src/main/java/org/pageseeder/bastille/cache/util/SizeEstimator.java:154-172 | Walking two field lists in a row sums their costs and threads the identity set. |
| SizeEstimation.ChainIsFlatFields | src/main/java/org/pageseeder/bastille/cache/util/SizeEstimator.java:150-175 | Walking class by class equals walking all declared fields in order. |
| SizeEstimation.NeedsInMemorySample | src/main/java/org/pageseeder/bastille/cache/util/SizeEstimator.java:79-88 | Resample when there is no sample, the cache grew beyond 1.5 times the sampled count, or the sample measured 0 bytes. |
| SizeEstimation.NeedsOnDiskSample | src/main/java/org/pageseeder/bastille/cache/util/SizeEstimator.java:203-213 | Resample when there is no sample or the cache more than doubled. |
| SizeEstimation.Resample | src/main/java/org/pageseeder/bastille/cache/util/SizeEstimator.java:79-89 | A needed sample replaces only this cache's entry, recording the current element count and the measured byte size (0, unmeasured, for an empty cache). It reports `true` only for a non-empty cache. |
| SizeEstimation.EmptyCacheSample | src/main/java/org/pageseeder/bastille/cache/util/SizeEstimator.java:80-87 | An empty cache is sampled as (0, 0), whatever would have been measured. |
| SizeEstimation.InMemoryCheckSettles | src/main/java/org/pageseeder/bastille/cache/util/SizeEstimator.java:79-89 | After a non-zero in-memory resample, the cache no longer needs one. |
| SizeEstimation.ZeroByteSampleRetried | src/main/java/org/pageseeder/bastille/cache/util/SizeEstimator.java:79-213 | A zero-byte sample is resampled in memory but not on disk. |
| SizeEstimation.OnDiskCheckSettles | src/main/java/org/pageseeder/bastille/cache/util/SizeEstimator.java:203-213 | After an on-disk resample, the cache no longer needs one. |
| SizeEstimation.SizeEstimator.CheckInMemorySample | src/main/java/org/pageseeder/bastille/cache/util/SizeEstimator.java:79-89 | The in-memory samples become the resampled map for the measured size; the on-disk samples are unchanged. |
| SizeEstimation.SizeEstimator.CalculateInMemorySize | src/main/java/org/pageseeder/bastille/cache/util/SizeEstimator.java:92-108 | The sum of the walks over the cache's values with a shared identity set. |
| SizeEstimation.SizeEstimator.CheckOnDiskSample | src/main/java/org/pageseeder/bastille/cache/util/SizeEstimator.java:203-213 | The on-disk samples become the resampled map for the disk size; the in-memory samples are unchanged. |
| SizeEstimation.SizeEstimator.GetInMemorySize | src/main/java/org/pageseeder/bastille/cache/util/SizeEstimator.java:223-228 | The estimate from the cache's in-memory sample, which exists afterwards. A freshly taken sample gives the measured size itself. |
| SizeEstimation.SizeEstimator.GetOnDiskSize | src/main/java/org/pageseeder/bastille/cache/util/SizeEstimator.java:238-243 | The estimate from the cache's on-disk sample. A fresh sample gives the disk size itself. |
| SizeEstimation.SizeEstimator.EstimateInMemorySize | src/main/java/org/pageseeder/bastille/cache/util/SizeEstimator.java:252-254 | -1 without a sample, otherwise the sample's estimate. |
| SizeEstimation.SizeEstimator.EstimateOnDiskSize | src/main/java/org/pageseeder/bastille/cache/util/SizeEstimator.java:263-265 | -1 without a sample, otherwise the sample's estimate. |
| SizeEstimation.EstimateSizeOfCache | src/main/java/org/pageseeder/bastille/cache/util/SizeEstimator.java:122-177 | The recursive walk returns the size, and leaves the identity map, that the walk function gives. |
| SizeEstimation.EstimateItems | src/main/java/org/pageseeder/bastille/cache/util/SizeEstimator.java:135-149 | The loop over a collection agrees with the walk function. |
| SizeEstimation.EstimateEntries | src/main/java/org/pageseeder/bastille/cache/util/SizeEstimator.java:140-144 | The loop over a map's entries agrees with the walk function. |
| SizeEstimation.EstimateChain | src/main/java/org/pageseeder/bastille/cache/util/SizeEstimator.java:150-175 | The loop up the superclass chain agrees with the walk function. |
| SizeEstimation.EstimateFields | src/main/java/org/pageseeder/bastille/cache/util/SizeEstimator.java:154-172 | The loop over declared fields agrees with the walk function. |
| Base64Tables.StreamMode | src/com/weborganic/bastille/util/Base64.java:1484-1494 | The stream constructors read ENCODE and DO_BREAK_LINES from the option bits. |
| Base64Tables.Alphabet | src/com/weborganic/bastille/util/Base64.java:122-319 | The letter of each digit in the standard, URL-safe and ordered alphabets; `AlphabetIsCode` and `AlphabetDecodes` state its properties. |
| Base64Tables.DialectOf | src/com/weborganic/bastille/util/Base64.java:313-341 | URL_SAFE selects the URL-safe alphabet; otherwise ORDERED selects the ordered one; otherwise the standard one. |
| Base64Tables.TableValue | src/com/weborganic/bastille/util/Base64.java:110-113 | Table values: digits are non-negative, '=' is -1, white space is -5, and invalid entries are below -5. |
| Base64Tables.Decodabet | src/com/weborganic/bastille/util/Base64.java:139-298 | White space and '=' have their special entries, and characters of 0x80 and above are invalid. |
| Base64Tables.AlphabetDecodes | src/com/weborganic/bastille/util/Base64.java:122-298 | In each dialect, the decoding table maps each alphabet character back to its position. |
| Base64Tables.DecodabetInverts | src/com/weborganic/bastille/util/Base64.java:122-298 | Each table entry that is a digit is the position of that character in the alphabet. |
| Base64Tables.AlphabetIsCode | src/com/weborganic/bastille/util/Base64.java:122-298 | The alphabets are injective and avoid '=' and white space. |
| Base64Tables.OrderedAlphabetAscends | src/com/weborganic/bastille/util/Base64.java:244-259 | The ordered alphabet is strictly ascending. |
| Base64Codec.EncodeGroup | src/com/weborganic/bastille/util/Base64.java:396-438 | One to three bytes encode to four characters. |
| Base64Codec.GroupChar | src/com/weborganic/bastille/util/Base64.java:396-438 | Each character is the alphabet letter for its 6-bit slice; padding '=' appears exactly after the significant characters. |
| Base64Codec.Lookup | src/com/weborganic/bastille/util/Base64.java:895-925 | Looking up a character of 0x80 or above fails, as Java's negative array index does. |
| Base64Codec.DecodeGroup | src/com/weborganic/bastille/util/Base64.java:880-926 | A four-character group decodes to one to three bytes. |
| Base64Codec.DecodeGroupCount | src/com/weborganic/bastille/util/Base64.java:895-925 | 1 byte when the third character is '=', 2 when only the fourth is, 3 otherwise. Exactly the characters above 0x7f that it indexes make it throw. |
| Base64Codec.GroupRoundTrip | src/com/weborganic/bastille/util/Base64.java:880-926 | decode4to3(encode3to4(g)) == g for every group of one to three bytes, in every dialect. |
| Base64Codec.JoinSplit | src/com/weborganic/bastille/util/Base64.java:895-925 | Reassembling the 6-bit slices of a group gives its bytes. |
| Base64Codec.GroupCharacters | src/com/weborganic/bastille/util/Base64.java:396-438 | Encoded characters are 7-bit alphabet digits or '='. |
| Base64Codec.EncodedLength | src/com/weborganic/bastille/util/Base64.java:797-843 | The output has 4 characters per started group plus one newline per 19 full groups. It fits the allocated `encLen` and, with line breaks, is at most one short of it. |
| Base64Codec.BodyLengthIs | src/com/weborganic/bastille/util/Base64.java:812-824 | The full groups' output length, newlines included. |
| Base64Codec.LineBreaks | src/com/weborganic/bastille/util/Base64.java:812-824 | With line breaks, a newline stands exactly at every 77th position. |
| Base64Codec.NoBreaksNoWhiteSpace | src/com/weborganic/bastille/util/Base64.java:812-824 | Without line breaks, the output holds no white space. |
| Base64Codec.RoundTrip | src/com/weborganic/bastille/util/Base64.java:760-1024 | The decode loop returns exactly the bytes encoded, with or without line breaks, in every dialect. |
| Base64Codec.EncodeThenDecode | src/com/weborganic/bastille/util/Base64.java:760-1024 | Without GZIP, `decode(encodeBytesToBytes(x))` with the same alphabet is x. |
| Base64Codec.BodyDecodes | src/com/weborganic/bastille/util/Base64.java:993-1019 | Decoding the full groups yields their bytes, newlines skipped. |
| Base64Codec.DecodeRunFullGroup | src/com/weborganic/bastille/util/Base64.java:993-1019 | One full group decoded adds its three bytes. |
| Base64Codec.DecodeRunLastGroup | src/com/weborganic/bastille/util/Base64.java:1005-1009 | A padded group adds its bytes and ends decoding. |
| Base64Codec.DecodeRunSkipsNewLine | src/com/weborganic/bastille/util/Base64.java:1000-1017 | A newline is skipped. |
| Base64Codec.Encode3To4 | src/com/weborganic/bastille/util/Base64.java:396-438 | Writes the group's four characters at destOffset, and nothing else changes. |
| Base64Codec.EncodeChecked | src/com/weborganic/bastille/util/Base64.java:760-843 | `encodeBytesToBytes` without GZIP: NullPointerException for `null`, IllegalArgumentException for a negative offset or length or a range past the end, otherwise the encoding of the range. |
| Base64Codec.DecodeChecked | src/com/weborganic/bastille/util/Base64.java:966-1024 | `decode`: NullPointerException for `null`, IllegalArgumentException for a bad range or a length of 1 to 3, an empty result for length 0, otherwise the decode loop over the range. |
| Base64Codec.EncodeBytesToBytes | src/com/weborganic/bastille/util/Base64.java:760-843 | Returns the checked encoding: NullPointerException for `null`, IllegalArgumentException for a bad offset or length, otherwise the groups with their line ends. |
| Base64Codec.EncodeFullGroups | src/com/weborganic/bastille/util/Base64.java:812-824 | After the loop, the buffer holds the full groups and their line ends. |
| Base64Codec.EncodeLastGroup | src/com/weborganic/bastille/util/Base64.java:826-829 | Appends the padded last group when bytes remain. |
| Base64Codec.EncodeStep | src/com/weborganic/bastille/util/Base64.java:813-823 | One turn of the loop appends one group and its line end. |
| Base64Codec.Decode4To3 | src/com/weborganic/bastille/util/Base64.java:880-926 | Writes the decoded bytes at destOffset and returns their count. It throws exactly as the checked decoding does, changing nothing. |
| Base64Codec.DecodeChars | src/com/weborganic/bastille/util/Base64.java:894-925 | The three branches of decode4to3 give one byte for '=' third, two for '=' fourth, three otherwise, each the group's decoding. |
| Base64Codec.Decode | src/com/weborganic/bastille/util/Base64.java:966-1024 | Returns the checked decoding. Errors: NullPointerException for `null`; IllegalArgumentException for a bad range or a length of 1 to 3; an error for an invalid character or a character above 0x7f. The output buffer of `len*3/4` bytes never overflows. |
| Base64Codec.DecodeStep | src/com/weborganic/bastille/util/Base64.java:993-1019 | One character of the decode loop keeps the run function's result unchanged and never writes past `len*3/4`. |
| Base64Codec.AppendDecoded | src/com/weborganic/bastille/util/Base64.java:1004-1009 | A completed group's bytes are appended to the output. |
| Base64OutputStream.AfterWrite | src/com/weborganic/bastille/util/Base64.java:1710-1748 | write() keeps the buffer sound, never changes the suspended or closed flags, and on an exception passes nothing on. |
| Base64OutputStream.EncodeWrite | src/com/weborganic/bastille/util/Base64.java:1718-1732 | The encoding branch of write(). |
| Base64OutputStream.DecodeWrite | src/com/weborganic/bastille/util/Base64.java:1735-1747 | The decoding branch of write(). |
| Base64OutputStream.AfterWriteAll | src/com/weborganic/bastille/util/Base64.java:1761-1770 | Writing several bytes keeps the flags. |
| Base64OutputStream.AfterFlush | src/com/weborganic/bastille/util/Base64.java:1777-1787 | flushBase64 keeps the buffer sound. |
| Base64OutputStream.OutputStream.constructor | src/com/weborganic/bastille/util/Base64.java:1682-1694 | The fields follow from the options, and the state is the initial writer. |
| Base64OutputStream.OutputStream.Write | src/com/weborganic/bastille/util/Base64.java:1710-1748 | write(int) changes the fields exactly as the write function on the low byte says. |
| Base64OutputStream.OutputStream.WriteByte | src/com/weborganic/bastille/util/Base64.java:1710-1748 | Follows the write function. |
| Base64OutputStream.OutputStream.EncodeByte | src/com/weborganic/bastille/util/Base64.java:1718-1732 | Follows the write function on an encoding stream. |
| Base64OutputStream.OutputStream.EncodeBuffer | src/com/weborganic/bastille/util/Base64.java:1724 | Passes on the buffer's encoding. |
| Base64OutputStream.OutputStream.DecodeBuffer | src/com/weborganic/bastille/util/Base64.java:1739-1740 | Passes on the buffer's decoding, or throws its error with nothing passed on. |
| Base64OutputStream.OutputStream.WriteBytes | src/com/weborganic/bastille/util/Base64.java:1761-1770 | write(byte[], off, len) follows the array-write function, including its exceptions. |
| Base64OutputStream.OutputStream.WriteRange | src/com/weborganic/bastille/util/Base64.java:1767-1769 | The loop writes each byte in turn and stops at the first exception or at the end of the array. |
| Base64OutputStream.OutputStream.WriteAt | src/com/weborganic/bastille/util/Base64.java:1768 | One turn of that loop. |
| Base64OutputStream.OutputStream.FlushBase64 | src/com/weborganic/bastille/util/Base64.java:1777-1787 | Follows the flush function. |
| Base64OutputStream.OutputStream.Close | src/com/weborganic/bastille/util/Base64.java:1797-1806 | Follows the close function: flush, then close the wrapped stream; a second close throws NullPointerException, as on Java 8. |
| Base64OutputStream.OutputStream.SuspendEncoding | src/com/weborganic/bastille/util/Base64.java:1816-1819 | Follows the suspend function. |
| Base64OutputStream.OutputStream.ResumeEncoding | src/com/weborganic/bastille/util/Base64.java:1828-1830 | Only the suspended flag changes, to false. |
| Base64OutputStream.WriteAllAppend | src/com/weborganic/bastille/util/Base64.java:1761-1770 | Writing a + b is writing a, then b unless a threw. |
| Base64OutputStream.WriteAllStops | src/com/weborganic/bastille/util/Base64.java:1761-1770 | After an exception nothing more is written. |
| Base64OutputStream.EncodingTakes | src/com/weborganic/bastille/util/Base64.java:1719-1720 | The first two bytes of a group are buffered. |
| Base64OutputStream.EncodingCompletes | src/com/weborganic/bastille/util/Base64.java:1721-1731 | The third byte sends four characters on, plus a newline when the line is full. |
| Base64OutputStream.EncodingStep | src/com/weborganic/bastille/util/Base64.java:1718-1732 | Each written byte keeps an encoding stream in step with encodeBytesToBytes. |
| Base64OutputStream.EncodingSteps | src/com/weborganic/bastille/util/Base64.java:1718-1732 | Any written bytes keep an encoding stream in step with encodeBytesToBytes. |
| Base64OutputStream.FlushEncoded | src/com/weborganic/bastille/util/Base64.java:1777-1787 | Flushing completes the encoding of everything written. |
| Base64OutputStream.FlushPads | src/com/weborganic/bastille/util/Base64.java:1779-1783 | Flushing a partial group pads it with '='. |
| Base64OutputStream.EncodingStreamMatchesArray | src/com/weborganic/bastille/util/Base64.java:1682-1787 | Writing x to a new encoding stream and flushing produces exactly `encodeBytesToBytes(x)` without GZIP. |
| Base64OutputStream.EncodingWriteGrowth | src/com/weborganic/bastille/util/Base64.java:1718-1732 | Each write passes on nothing, or four characters, or four and a newline. |
| Base64OutputStream.InvalidCharacterThrows | src/com/weborganic/bastille/util/Base64.java:1744-1746 | A character with no table entry throws and changes nothing. |
| Base64OutputStream.PartialGroupThrows | src/com/weborganic/bastille/util/Base64.java:1784-1785 | Flushing a decoding stream in the middle of a group throws. |
| Base64OutputStream.DecodingTakes | src/com/weborganic/bastille/util/Base64.java:1737-1738 | A significant character is buffered. |
| Base64OutputStream.DecodingCompletes | src/com/weborganic/bastille/util/Base64.java:1739-1742 | The fourth character passes the group's bytes on. |
| Base64OutputStream.DecodingGroup | src/com/weborganic/bastille/util/Base64.java:1735-1747 | An encoded group written to a decoding stream passes its bytes on. |
| Base64OutputStream.DecodingSkipsNewLine | src/com/weborganic/bastille/util/Base64.java:1744 | A newline is ignored. |
| Base64OutputStream.DecodingBody | src/com/weborganic/bastille/util/Base64.java:1735-1747 | Full groups and line ends pass on the bytes they encode. |
| Base64OutputStream.DecodingEncoded | src/com/weborganic/bastille/util/Base64.java:1735-1747 | A whole encoding passes on the encoded bytes. |
| Base64OutputStream.DecodingStreamRoundTrip | src/com/weborganic/bastille/util/Base64.java:1735-1787 | Writing `encodeBytesToBytes(x)` to a new decoding stream with the same alphabet passes on exactly x, and the flush succeeds. |
| Base64InputStream.SkipFrom | src/com/weborganic/bastille/util/Base64.java:1541-1542 | The inner do-while stops at the first significant character, or at the end. |
| Base64InputStream.TakeFrom | src/com/weborganic/bastille/util/Base64.java:1538-1547 | The refill takes at most four characters, and fewer only at the end of the stream. |
| Base64InputStream.TakenChars | src/com/weborganic/bastille/util/Base64.java:1538-1547 | The characters taken are exactly the next significant characters. |
| Base64InputStream.TakeGroup | src/com/weborganic/bastille/util/Base64.java:1538-1547 | After skipped characters, four significant ones are taken. |
| Base64InputStream.Serve | src/com/weborganic/bastille/util/Base64.java:1565-1584 | Serving a byte leaves the buffer and the input unchanged, and returns -1 exactly past the significant bytes. |
| Base64InputStream.EncodeFill | src/com/weborganic/bastille/util/Base64.java:1509-1531 | The encoding refill never throws. It reports end of stream only on empty input, changing nothing. |
| Base64InputStream.DecodeFill | src/com/weborganic/bastille/util/Base64.java:1535-1560 | A refill starts the buffer at 0; at the end of the input it reports end of stream. |
| Base64InputStream.ReadValue | src/com/weborganic/bastille/util/Base64.java:1565-1583 | The int returned is -1 at the end of the stream, otherwise `b & 0xFF`. |
| Base64InputStream.AfterRead | src/com/weborganic/bastille/util/Base64.java:1505-1590 | read() keeps the state well-formed. |
| Base64InputStream.Drain | src/com/weborganic/bastille/util/Base64.java:1607-1621 | n reads give at most n bytes, and exactly n unless one ended or threw. |
| Base64InputStream.FillDrains | src/com/weborganic/bastille/util/Base64.java:1607-1621 | For any read() (the stream's read included), read(byte[], off, len) into an array with room stores what len read() calls hand out and returns their count. It returns -1 when the first read ends, or the exception one threw. |
| Base64InputStream.EndIsFinal | src/com/weborganic/bastille/util/Base64.java:1553-1568 | After -1, read() keeps returning -1 and changes nothing. |
| Base64InputStream.PartialGroupThrows | src/com/weborganic/bastille/util/Base64.java:1556-1559 | One to three significant characters left make read() throw IOException. |
| Base64InputStream.InsignificantPassedOver | src/com/weborganic/bastille/util/Base64.java:1541-1542 | Leading insignificant characters, invalid ones included, are skipped silently. |
| Base64InputStream.EncodingStreamReadsEncoded | src/com/weborganic/bastille/util/Base64.java:1505-1590 | Reading a new encoding stream to its end gives `encodeBytesToBytes` of its input without GZIP, less the final newline when that output ends with one. |
| Base64InputStream.DecodingStreamReadsDecoded | src/com/weborganic/bastille/util/Base64.java:1505-1590 | Reading a decoding stream over `encodeBytesToBytes(x)` with the same alphabet gives x, then -1. |
| Base64InputStream.InputStream.constructor | src/com/weborganic/bastille/util/Base64.java:1484-1494 | The fields follow from the options, with the initial reader state over the wrapped input. |
| Base64InputStream.InputStream.Read | src/com/weborganic/bastille/util/Base64.java:1505-1590 | read() changes the fields exactly as the read function says and returns its int value or exception. |
| Base64InputStream.InputStream.ReadInto | src/com/weborganic/bastille/util/Base64.java:1607-1621 | read(byte[], off, len) follows the array-read function. |
| Base64InputStream.InputStream.FillFrom | src/com/weborganic/bastille/util/Base64.java:1608-1620 | The for loop of read(byte[], off, len) ends in the state, array contents and result of the model's loop. |
| Base64InputStream.InputStream.ReadOneInto | src/com/weborganic/bastille/util/Base64.java:1611-1618 | One turn: a read() stored at `off + i`, or the -1, the count or the exception that ends the loop, as the model's loop says. |
| Base64InputStream.InputStream.ReadByte | src/com/weborganic/bastille/util/Base64.java:1505-1590 | read() on the fields: a refill when the buffer is spent, then the next byte, exactly as the read function. |
| Base64InputStream.InputStream.FillEncoded | src/com/weborganic/bastille/util/Base64.java:1509-1531 | Up to three bytes read and encoded into the buffer; false, with nothing else changed, at the end of the input. |
| Base64InputStream.InputStream.FillDecoded | src/com/weborganic/bastille/util/Base64.java:1535-1560 | Four significant characters decoded into the buffer; -1 when none are left; IOException for one to three. |
| Base64InputStream.InputStream.TakeChars | src/com/weborganic/bastille/util/Base64.java:1536-1547 | `b4` starts with the next (at most four) significant characters, and the input resumes after the last of them. |
| Base64InputStream.InputStream.NextSignificant | src/com/weborganic/bastille/util/Base64.java:1540-1542 | The do-while returns the first significant character and consumes up to it, or reports the end with the input spent. |
| Base64InputStream.InputStream.DecodeInto | src/com/weborganic/bastille/util/Base64.java:1549-1552 | decode4to3 into the front of the buffer sets numSigBytes to the number of bytes decoded and the position to 0, or throws as the decoding does. |
| Base64InputStream.InputStream.ServeNext | src/com/weborganic/bastille/util/Base64.java:1565-1584 | Hands out the next byte, '\n' when a line is full, or -1 past the significant bytes, as the serve function says. |
| XMLExtension.AddXMLExtension | src/com/weborganic/bastille/xml/GetXMLFileFromRelativePathParameter.java:117-136 | `null`, empty and ".."-containing names give "". A name not ending in .xml (any case) gets ".xml" appended. A name ending in .xml in some case is cut just before the LAST lower-case ".xml" it holds, which gets ".xml" again; when it holds none, StringIndexOutOfBounds is thrown. |
| XMLExtension.ExactExtensionKept | src/com/weborganic/bastille/xml/GetXMLFileFromRelativePathParameter.java:131-132 | A name already ending in ".xml" is returned unchanged. |
| XMLExtension.AddXMLExtensionIdempotent | src/com/weborganic/bastille/xml/GetXMLFileFromRelativePathParameter.java:117-136 | Applying it twice equals applying it once, for names that do not end in '.'. |
| XMLExtension.TrailingDotNotIdempotent | src/com/weborganic/bastille/xml/GetXMLFileFromRelativePathParameter.java:124-134 | "a." becomes "a..xml", which the second call refuses as a parent reference, giving "". |
| XMLExtension.UpperCaseExtensionFails | src/com/weborganic/bastille/xml/GetXMLFileFromRelativePathParameter.java:131-132 | "page.XML" throws: lastIndexOf(".xml") is -1. |
| XMLExtension.AddXMLExtensionFixed | src/com/weborganic/bastille/xml/GetXMLFileFromRelativePathParameter.java:117-136 | Corrected: any accepted name yields a path ending in ".xml". A name ending in the extension in any case keeps its length and its case-folded text. |
| XMLExtension.FixedAgreesWhereDefined | src/com/weborganic/bastille/xml/GetXMLFileFromRelativePathParameter.java:117-136 | The correction agrees with the original exactly on names that end in lower-case ".xml" or do not end in ".xml" in any case. |
| XMLExtension.CutAtEarlierExtension | src/com/weborganic/bastille/xml/GetXMLFileFromRelativePathParameter.java:131-132 | "a.xml.XML" becomes "a.xml": the name is cut at its earlier lower-case ".xml". |
| XMLExtension.FixedKeepsEarlierExtension | src/com/weborganic/bastille/xml/GetXMLFileFromRelativePathParameter.java:131-132 | The correction turns "a.xml.XML" into "a.xml.xml". |
| XMLExtension.CutAtLastExtension | src/com/weborganic/bastille/xml/GetXMLFileFromRelativePathParameter.java:131-132 | An accepted name ending in ".xml" in some case is cut at the last lower-case ".xml" it holds. |
| XMLExtension.FixedNormalisesUpperCase | src/com/weborganic/bastille/xml/GetXMLFileFromRelativePathParameter.java:131-132 | "page.XML" becomes "page.xml". |
| XMLExtension.AddXMLExtensionFixedIdempotent | src/com/weborganic/bastille/xml/GetXMLFileFromRelativePathParameter.java:117-136 | The correction is idempotent for names not ending in '.'. |
| XMLExtension.NoParentInConcat | src/com/weborganic/bastille/xml/GetXMLFileFromRelativePathParameter.java:124 | Joining two ".."-free strings creates ".." only across a dot at the seam. |
| PageSeederResources.GetURLPath | src/com/weborganic/bastille/pageseeder/PSResource.java:181-187 | The text before the last '#' (when after the first character), then before the first '?' (when after the first character); `PathIsDelimitedPrefix` states its properties. |
| PageSeederResources.GetURLQuery | src/com/weborganic/bastille/pageseeder/PSResource.java:195-201 | From the first '?' to the last '#' after it, or to the end; none without '?' or with a '#' before it; `QueryStartsAtFirstQuestionMark` states its properties. |
| PageSeederResources.GetURLFragment | src/com/weborganic/bastille/pageseeder/PSResource.java:209-212 | The suffix from the first '#', or none; `FragmentIsSuffixFromFirstHash` states its properties. |
| PageSeederResources.PathIsDelimitedPrefix | src/com/weborganic/bastille/pageseeder/PSResource.java:181-187 | The path is a prefix of the name that ends at the end, at '#' or at '?'. |
| PageSeederResources.QueryStartsAtFirstQuestionMark | src/com/weborganic/bastille/pageseeder/PSResource.java:195-201 | There is a query unless there is no '?' or the last '#' comes before the first '?'. The query starts with that first '?'. |
| PageSeederResources.FragmentIsSuffixFromFirstHash | src/com/weborganic/bastille/pageseeder/PSResource.java:209-212 | The fragment is the suffix from the first '#', present exactly when '#' occurs. |
| PageSeederResources.DecompositionRecomposes | src/com/weborganic/bastille/pageseeder/PSResource.java:181-212 | With at most one '#' and neither '#' nor '?' first, path + query + fragment is the name. |
| PageSeederResources.SplitWithoutHash | src/com/weborganic/bastille/pageseeder/PSResource.java:181-212 | Without '#': the path is before '?', the query from '?', and there is no fragment. |
| PageSeederResources.SplitWithOneHash | src/com/weborganic/bastille/pageseeder/PSResource.java:181-212 | With one '#': the split into path, query and fragment. |
| PageSeederResources.TwoHashesDuplicateText | src/com/weborganic/bastille/pageseeder/PSResource.java:181-212 | "a#b#c": the path "a#b" and the fragment "#b#c" overlap. |
| PageSeederResources.EveryParameterSent | src/com/weborganic/bastille/pageseeder/PSResource.java:157-161 | Every parameter appears in the URL as `&name=encoded value`. |
| PageSeederResources.DefaultServletURL | src/com/weborganic/bastille/pageseeder/PSResource.java:116-170 | With the default configuration, a servlet URL is `http://localhost:8080/ps/servlet/<name>?xformat=xml`. |
| PageSeederResources.URLStartsWithPath | src/com/weborganic/bastille/pageseeder/PSResource.java:121-150 | The URL begins with the base, the type prefix and the path, then the session id when there is one. |
| PageSeederResources.URLEndsWithFragment | src/com/weborganic/bastille/pageseeder/PSResource.java:164-168 | The URL ends with the name's fragment. |
| PageSeederResources.URLOf | src/com/weborganic/bastille/pageseeder/PSResource.java:116-170 | The URL `toURL` builds: head, then parameters, then fragment; the lemmas around it state its parts. |
| PageSeederResources.URLOfInAppendOrder | src/com/weborganic/bastille/pageseeder/PSResource.java:116-170 | The URL is the head, then the query, then the parameters, then the fragment. |
| PageSeederResources.AppendParameters | src/com/weborganic/bastille/pageseeder/PSResource.java:157-161 | The loop appends each parameter pair in iteration order. |
| PageSeederResources.ParameterPartSnoc | src/com/weborganic/bastille/pageseeder/PSResource.java:157-161 | Each turn of that loop adds one pair. |
| PageSeederResources.PSResource.constructor | src/com/weborganic/bastille/pageseeder/PSResource.java:44-48 | Type and name as given, with an empty, immutable parameter map. |
| PageSeederResources.PSResource.WithParameters | src/com/weborganic/bastille/pageseeder/PSResource.java:57-61 | Type, name and parameters as given; the parameters are mutable. |
| PageSeederResources.PSResource.AddParameter | src/com/weborganic/bastille/pageseeder/PSResource.java:97-99 | Adds to or overwrites a mutable map. The immutable empty map throws UnsupportedOperationException and stays unchanged. |
| PageSeederResources.PSResource.ToURL | src/com/weborganic/bastille/pageseeder/PSResource.java:116-170 | Builds exactly the URL the URL function describes. |
| PageSeederResources.Builder.constructor | src/com/weborganic/bastille/pageseeder/PSResource.java:241-242 | No type, no name, no parameters. |
| PageSeederResources.Builder.Of | src/com/weborganic/bastille/pageseeder/PSResource.java:250-253 | The given type and name, and no parameters. |
| PageSeederResources.Builder.SetType | src/com/weborganic/bastille/pageseeder/PSResource.java:260-263 | Sets only the type and returns the builder itself. |
| PageSeederResources.Builder.SetName | src/com/weborganic/bastille/pageseeder/PSResource.java:270-273 | Sets only the name and returns the builder itself. |
| PageSeederResources.Builder.AddParameter | src/com/weborganic/bastille/pageseeder/PSResource.java:282-285 | Adds one parameter and returns the builder itself. |
| PageSeederResources.Builder.Build | src/com/weborganic/bastille/pageseeder/PSResource.java:291-300 | A missing type or name throws IllegalStateException. Otherwise a new resource with the builder's parameters, mutable exactly when there are any. |
| PageSeederResources.BuildThenChange | src/com/weborganic/bastille/pageseeder/PSResource.java:291-300 | The built resource does not see later changes to the builder's parameters. |
| Common.IndexOfCharIsFirst | src/com/weborganic/bastille/pageseeder/PSResource.java:183 | `indexOf` is -1 exactly when the character is absent, and otherwise its first occurrence. |
| Common.LastIndexOfCharIsLast | src/com/weborganic/bastille/pageseeder/PSResource.java:197 | `lastIndexOf` is -1 exactly when the character is absent, and otherwise its last occurrence. |
| Common.LastIndexOf | src/com/weborganic/bastille/xml/GetXMLFileFromRelativePathParameter.java:132 | `lastIndexOf(sub)` is the last occurrence, and -1 exactly when there is none. |
| Common.ReplaceAll | src/org/weborganic/bastille/cache/util/CachedResource.java:217 | `replace` leaves a string without the target unchanged; `ReplaceAllAtStart` and `ReplaceAllSkip` give its two steps. |
| Common.ReplaceAllAtStart | src/org/weborganic/bastille/cache/util/CachedResource.java:217 | `replace` replaces a leading occurrence and continues after it. |
| Common.ReplaceAllSkip | src/org/weborganic/bastille/cache/util/CachedResource.java:217 | Without a leading occurrence, `replace` keeps the first character and continues with the rest. |

## Left out

- The gzip and inflate codecs of `java.util.zip` are function parameters (`deflate`, and `inflate` as a script of read outcomes); the model does not describe the compressed format.
- GZIPUtils.addGzipHeader (`GZIPUtils.java:107-113`) sets a response header and checks whether the response is committed. It needs a servlet response object, which this model does not include.
- GZIPUtils.ShouldGzippedBodyBeZero is modelled as a predicate on the body length. The request it is given is used only for logging, which is left out.
- Logging throughout the core is left out.
- CachedResources.GetLastModified: the HTTP date parser is a parameter.
- CachedResources.CopyHeadersTo: the servlet response is the sequence of set/add calls it receives. It uses the ETag adjustment as written; the emission function also takes the corrected adjustment, for comparison (see Findings).
- Case-insensitive name comparison (`String.CASE_INSENSITIVE_ORDER`, `equalsIgnoreCase`, `toLowerCase`) folds ASCII letters only.
- SizeEstimation: Java reflection over real objects is replaced by an explicit heap of records, collections, maps, arrays, strings and primitives with their declared fields. Ehcache is a value holding name, size, values and disk size.
- SizeEstimation.Walk: sizes are unbounded naturals. The model does not wrap the walk's `long` sums, which would need more than 2^63 bytes of objects. The estimate's own multiplication does wrap (`WrapLong`).
- SizeEstimation.StringCharge: a string is charged `2 * length`, while Java computes `length() * Character.BYTES` in 32-bit `int` before widening. For strings of 2^30 characters or more (1 GiB of Latin-1 text) Java's charge wraps, to -2^31 at exactly 2^30 (`StringChargeAsInt`); the model's charge, and so `Walk` and `EstimateSizeOfCache`, stays 2 * length.
- SizeEstimation.NeedsInMemorySample: the `float` comparison `elements * 1.5f < size` is written as the exact comparison `3 * elements < 2 * size`. The two agree whenever the sample's element count is at most 5,592,405, so that 1.5 times it is below 2^23 and exact in a `float`, whatever the cache size. Above that the product can round: a sample of 5,592,409 elements and a cache of 8,388,614 need a resample exactly but not in `float`.
- SizeEstimation.NeedsOnDiskSample: `elements * 2` is `int` arithmetic, which wraps for sampled counts of 2^30 or more and then always resamples; the model uses the exact product.
- The sample maps are `ConcurrentHashMap`s; concurrency and the singleton accessor are left out.
- SizeEstimation.EstimateIsProportional: stated only when `bytesize * n` fits in a `long`; `EstimateOverflows` shows what happens otherwise.
- Base64 GZIP paths (`Base64.java:770-792`) and the automatic gunzip in `decode(String)` (`Base64.java:1036-1098`) are left out. The codec lemmas require the GZIP bit to be clear.
- Base64Codec.EncodeBytesToBytes: Java `int` arithmetic is not modelled. `off + len` wraps when it reaches 2^31, so such a range passes the check: with a large `off` and a short `len` the encoding loop throws ArrayIndexOutOfBoundsException, and with off = 1, len = 2^31 - 1 the allocation throws NegativeArraySizeException. The model answers IllegalArgumentException for both. `encLen` wraps for `len` of 1,610,612,734 or more (somewhat less with line breaks), giving NegativeArraySizeException where the model encodes.
- Base64Codec.Decode: the same `off + len` wrap lets the range check pass, and the loop bound `off + len` is then negative, so an empty array is returned (off = 1, len = 2^31 - 1) where the model answers IllegalArgumentException. `len * 3` wraps for `len` of 715,827,883 or more, giving NegativeArraySizeException or too small a buffer; the model decodes.
- Base64 object serialisation (`Base64.java:507-584`, `1115-1181`) and file helpers (`Base64.java:1197-1421`) are left out: they are I/O.
- The Base64 `ByteBuffer`/`CharBuffer` encoders (`Base64.java:451-474`) and the `String`-returning `encodeBytes` overloads (`Base64.java:597-729`) are left out. They wrap `encodeBytesToBytes` with a charset conversion.
- Base64OutputStream.OutputStream.Close: a second close is modelled as Java 8 runs it: `FilterOutputStream.close` flushes and closes the wrapped stream again, which `close` has set to null, so NullPointerException is thrown. From Java 9 on, `FilterOutputStream.close` returns at once when already closed, and a second close does nothing.
- The wrapped `java.io` streams of `Base64.InputStream` and `Base64.OutputStream` are byte sequences. `close()` of the wrapped output stream and its own exceptions are left out.
- PageSeederResources: `PSConfiguration` properties are a map, `URLEncoder.encode` is a parameter, and `HashMap` iteration order is an `order` parameter enumerating the keys. The final `new URL(...)` validation, with its `MalformedURLException`, is left out.
- PSResource.type() and name() are plain accessors of constant fields.
- PageSeederResources.PSResource.ToURL: Java `null` is not modelled for the resource type, the name or parameter keys and values (the public constructor and `Builder.addParameter` accept them). In Java a null name makes `getURLPath` throw NullPointerException (`PSResource.java:182`), a null parameter key or value makes `URLEncoder.encode` throw it (`PSResource.java:158-160`), and a null type takes the "any other resource" branch (`PSResource.java:142-144`). The model's type, name and parameters are never null.
- GetXMLFileFromRelativePathParameter.getETag and process (request handling and file I/O) are left out.
- XMLExtension.AddXMLExtensionIdempotent excludes names ending in '.'. For them the operation is not idempotent (`TrailingDotNotIdempotent`).

## Findings

| source | as written | input that shows it | evidently intended | confidence | as-written member | corrected member |
|---|---|---|---|---|---|---|
| src/org/weborganic/bastille/cache/util/CachedResource.java:216-217 | `value.replace("-gzip\"", "")` removes the closing quote along with the marker | ETag `"abc-gzip"` served ungzipped becomes `"abc`; re-tagging that gives `"ab-gzip"`; `copyHeadersTo` adds `"abc` for a repeated ETag (`RepeatedETagCopied`) | replace `-gzip"` with `"`, so stripping and tagging are inverse | not executed | CachedResources.AdjustETagDoesNotToggle | CachedResources.StripThenTag |
| src/com/weborganic/bastille/xml/GetXMLFileFromRelativePathParameter.java:131-132 | the test lower-cases the name but `lastIndexOf(".xml")` searches the original | `page.XML` throws StringIndexOutOfBoundsException (substring to -1); `a.xml.XML` is cut to `a.xml` at its earlier lower-case ".xml" | search the lower-cased name, giving `page.xml` and `a.xml.xml` | not executed | XMLExtension.UpperCaseExtensionFails | XMLExtension.FixedNormalisesUpperCase |
