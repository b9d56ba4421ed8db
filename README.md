# The chunking byte codec of `src/lib/helpers.ts`, in Dafny

`src/lib/helpers.ts` measures the UTF-8 size of a string, cuts a string's
UTF-8 encoding into chunks of bounded size, and puts chunks back together
into a string. No file of the source calls these three functions, so what
the chunks are stored in is outside this model.

- `byteLength(str)` computes the UTF-8 size of a string without encoding it.
  It is one right-to-left loop over the UTF-16 code units.
- `strToChunks(str, maxChunkSize)` encodes the string with `TextEncoder`.
  It then pushes `ceil(n / maxChunkSize)` slices of the bytes, in order.
- `chunksToString(chunks)` totals the chunk lengths and copies every chunk
  into one buffer at a running offset. It then decodes that buffer with
  `new TextDecoder()`.

The model has four modules, one file each:

- `Unicode` (`unicode.dfy`): UTF-16 code units, scalar values, and the
  conversion between them. Surrogate pairs follow section 2.1 of RFC 2781.
  A lone surrogate becomes U+FFFD, as when a JavaScript string is handed to
  `TextEncoder`.
- `Utf8` (`utf8.dfy`): the byte table of section 3 of RFC 3629. Also the
  WHATWG Encoding Standard's UTF-8 decoder in its non-fatal form: a bad or
  truncated sequence yields one U+FFFD per maximal subpart and never an error.
- `TextCodec` (`text_codec.dfy`): `TextEncoder.encode` and
  `TextDecoder.decode` built from these. The decoder skips a leading U+FEFF
  unless `ignoreBOM` is set.
- `Helpers` (`helpers.dfy`): the three functions of `src/lib/helpers.ts`.
  Each is a method with the source's loops, proved against the
  specification functions above.

Strings are `seq<CodeUnit>` and bytes are `seq<Byte>`. Both are int subset
types. The merged buffer of `chunksToString` is an `array<Byte>`, filled in
place.

Two behaviours of the code shape the model:

- `new TextDecoder()` is non-fatal: malformed bytes decode to U+FFFD and
  nothing is raised.
- The code never checks `maxChunkSize`. Here `maxChunkSize >= 1` is a
  precondition. With 0 the slice count is `Infinity`, or `NaN` for an empty
  string.

## Model

| member | source | states |
|---|---|---|
| `Helpers.ByteLength` | src/lib/helpers.ts:7-16 | The loop returns str.length plus the bytes the right-to-left scan adds. The result is never below str.length, equals str.length for an all-ASCII string, and equals the length of TextEncoder's output for every well-formed string. |
| `Helpers.ScanExtra` | src/lib/helpers.ts:9-14 | The right-to-left scan adds at most 2 bytes per unit, so byteLength is at most three times str.length. |
| `Helpers.ScanExtraAscii` | src/lib/helpers.ts:8-14 | On a string whose units are all at most 0x7F, the scan adds nothing. |
| `Helpers.ScanExtraWellFormed` | src/lib/helpers.ts:9-14 | On a well-formed string, always skipping the unit before a trail surrogate gives the same count as skipping it only when it is a lead surrogate. |
| `Helpers.ScanExtraPairedLength` | src/lib/helpers.ts:1-14 | With the pair-aware skip, str.length plus the scan equals the UTF-8 length of every string, including lone surrogates, which count as U+FFFD. |
| `Helpers.EncodedLengthUnits` | src/lib/helpers.ts:11-13 | A unit on its own encodes to 1, 2 or 3 bytes, exactly 1 + what byteLength adds for it. A surrogate pair encodes to 4 bytes. |
| `Helpers.EncodedLengthAppend` | src/lib/helpers.ts:9-14 | The encoded length of a concatenation is the sum of the parts' lengths when the cut does not split a surrogate pair. |
| `Helpers.ByteLengthMiscountsLoneTrail` | src/lib/helpers.ts:13 | byteLength gives 4 for two lone trail surrogates, where TextEncoder writes 6 bytes. It gives 4 for "é" followed by a lone trail surrogate, where TextEncoder writes 5. |
| `Helpers.ByteLengthPaired` | src/lib/helpers.ts:7-16 | The corrected loop returns the length of TextEncoder's output for every string. |
| `Helpers.CeilDiv` | src/lib/helpers.ts:22 | The slice count c is the fewest that hold n bytes: c·m ≥ n, (c−1)·m < n when c > 0, and c = 0 exactly when n = 0. |
| `Helpers.SliceBufferContents` | src/lib/helpers.ts:29 | `buffer.slice(start, end)` clamps both ends to the buffer. It has min(end, n) − start bytes when start < end and start < n, and none otherwise; its byte k is byte start + k of the buffer. |
| `Helpers.OffsetIsProduct` | src/lib/helpers.ts:28 | The start of slice i, m added up i times, is m·i, the `startPos` of the loop. |
| `Helpers.ChunkFacts` | src/lib/helpers.ts:27-29 | For an index i below the slice count, slice i starts inside the encoding and is non-empty. It has at most m bytes, exactly m unless it is the last slice, and it is the bytes of the encoding from Offset(m, i) = m·i on. |
| `Helpers.Slices` | src/lib/helpers.ts:27-31 | After i rounds of the loop there are exactly i chunks. |
| `Helpers.SplitSizes` | src/lib/helpers.ts:22-31 | The ceil(n/m) slices of an encoding are each non-empty with at most m bytes, and all but the last have exactly m. |
| `Helpers.SplitContents` | src/lib/helpers.ts:27-31 | Byte k of slice i is byte Offset(m, i) + k = m·i + k of the encoding. |
| `Helpers.SplitFlatten` | src/lib/helpers.ts:22-31 | The ceil(n/m) slices of an encoding, concatenated, are the encoding: no byte is lost or repeated. |
| `Helpers.StrToChunks` | src/lib/helpers.ts:18-34 | Exactly ceil(n/m) chunks, and none for the empty string. Every chunk is non-empty with at most m bytes, and every chunk but the last has exactly m. Byte k of chunk i is byte Offset(m, i) + k = m·i + k of the encoding, and the concatenation of the chunks is the encoding. |
| `Helpers.FlattenLength` | src/lib/helpers.ts:38-44 | The length of the concatenated chunks is the sum of the chunk lengths, the size given to the merged buffer. |
| `Helpers.FlattenAppend` | src/lib/helpers.ts:43-49 | Concatenating two runs of chunks one after the other gives the concatenation of all of them: the merged bytes do not depend on where a run of chunks ends. |
| `Helpers.MergeChunks` | src/lib/helpers.ts:37-49 | The merged buffer has the total chunk length and holds the concatenation of the chunks in order. |
| `Helpers.ChunksToString` | src/lib/helpers.ts:36-52 | The result is the default decoder applied to the concatenated bytes. It depends only on those bytes, not on where the chunk boundaries fall, even when a boundary cuts a multi-byte character. |
| `Helpers.ChunksToStringKeepBom` | src/lib/helpers.ts:51 | The same merge, decoded with ignoreBOM set. |
| `Helpers.RoundTrip` | src/lib/helpers.ts:18-52 | For every m ≥ 1, chunksToString(strToChunks(s, m)) returns a well-formed s unchanged, except that a leading U+FEFF is lost. |
| `Helpers.RoundTripKeepBom` | src/lib/helpers.ts:18-52 | With ignoreBOM set, every well-formed s comes back unchanged for every m ≥ 1. Any other s comes back with its lone surrogates replaced by U+FFFD. |
| `TextCodec.EncodeEmpty` | src/lib/helpers.ts:20-21 | `TextCodec.Encode` is `TextEncoder.encode`: the string read as scalar values, then written as UTF-8. Its encoding is empty exactly when the string is empty. |
| `TextCodec.SkipBom` | src/lib/helpers.ts:51 | The byte order mark step keeps a suffix of the decoded values and drops at most one of them. One is dropped exactly when ignoreBOM is false and the first value is U+FEFF. |
| `TextCodec.Decode` | src/lib/helpers.ts:51 | `TextDecoder.decode` never returns a lone surrogate, and its result, read as scalar values, is what the UTF-8 decoder produced after the byte order mark step `SkipBom`. |
| `TextCodec.DecodeEncodeKeepBom` | src/lib/helpers.ts:51 | Decoding with ignoreBOM undoes encoding up to the replacement of lone surrogates. The result is always well-formed, and a well-formed string is returned unchanged. |
| `TextCodec.DecodeEncodeDefault` | src/lib/helpers.ts:51 | With the default decoder, a well-formed string comes back unchanged exactly when it does not start with U+FEFF. Otherwise it comes back without its first unit. |
| `TextCodec.LeadingBomDropped` | src/lib/helpers.ts:51 | U+FEFF U+0041 encodes to EF BB BF 41. The default decoder returns "A"; with ignoreBOM it returns both units. |
| `Utf8.EncodeScalars` | src/lib/helpers.ts:21 | A sequence of scalar values encodes to between one and four bytes per value. |
| `Utf8.Step` | src/lib/helpers.ts:51 | One step of the non-fatal decoder consumes at least one and at most the remaining bytes. An ASCII byte is read as itself. A step of more than one byte starts with a lead byte in C2..F4 and continues with bytes in 80..BF. |
| `Utf8.DecodeScalars` | src/lib/helpers.ts:51 | The decoder yields at most one scalar value per byte, and none exactly when there are no bytes. |
| `Utf8.EncodeScalar` | src/lib/helpers.ts:21 | A scalar value takes 1, 2, 3 or 4 bytes by the ranges of section 3 of RFC 3629. |
| `Utf8.StepEncoded` | src/lib/helpers.ts:51 | Applied to the encoding of a scalar value followed by anything, the decoder reads back exactly that value and consumes exactly its bytes. |
| `Utf8.DecodeEncode` | src/lib/helpers.ts:51 | Decoding the UTF-8 encoding of any sequence of scalar values gives that sequence back. |
| `Unicode.UnitsOf` | src/lib/helpers.ts:51 | A scalar value below U+10000 is one unit. Any other is a lead and trail surrogate that combine back to it. |
| `Unicode.ToScalars` | src/lib/helpers.ts:21 | Reading a string as scalar values, with a lone surrogate read as U+FFFD, gives at most one value per code unit. |
| `Unicode.FromScalars` | src/lib/helpers.ts:51 | Writing scalar values as a string takes one or two code units per value. |
| `Unicode.ToScalarsSplit` | src/lib/helpers.ts:21 | Reading a string as scalar values splits at every boundary that does not cut a surrogate pair. |
| `Unicode.FromToScalars` | src/lib/helpers.ts:51 | A well-formed string read as scalar values and written back is unchanged. |
| `Unicode.ToFromScalars` | src/lib/helpers.ts:51 | Scalar values written as a string and read back are unchanged. |
| `Unicode.FromScalarsWellFormed` | src/lib/helpers.ts:51 | A string written from scalar values has no lone surrogate. |

## Left out

- `timeOut` (src/lib/helpers.ts:54-56) is a `setTimeout` promise. It is timing only, with no logic to state.
- No file of the source calls these three functions; whatever stores the chunks is outside this model.
- The stores, database setup, storage wrappers, schemas, type declarations and styling configuration are not part of this model. They are thin wrappers over foreign libraries or declarations without logic.
- Chunks are modelled as byte sequences, not `Uint8Array` objects. Aliasing between chunks and the encoder's buffer is not modelled. `strToChunks` copies each slice, so none exists in the source either.
- `columnsEnc.buffer.slice` is modelled as a slice of the encoded bytes. This assumes the encoder's `Uint8Array` views its whole buffer from offset 0, which is what `TextEncoder.encode` returns.
- JavaScript numbers are unbounded integers here. `Math.ceil(n / maxChunkSize)` is exact integer ceiling division, and rounding for sizes beyond 2^53 is not modelled. A non-integer `maxChunkSize` is not modelled.
- `maxChunkSize >= 1` is a precondition of `StrToChunks`, `RoundTrip` and `RoundTripKeepBom`, because the code never checks it.
- The decoder's streaming mode and its `fatal` option are not modelled. The source uses neither.

## Findings

| source | as written | input that shows it | evidently intended | confidence | as-written member | corrected member |
|---|---|---|---|---|---|---|
| src/lib/helpers.ts:13 | On a trail surrogate the loop always skips the unit before it, even when that unit is not a lead surrogate. Its extra bytes are then never counted. | `"\uDC00\uDC00"` gives 4 where TextEncoder writes 6. `"é\uDC00"` gives 4 where TextEncoder writes 5. | "The byte size of string": the length of TextEncoder's output for every string. The skip should apply only when the unit before the trail is a lead surrogate. | medium: holds by the WHATWG and Infra rules for lone surrogates; the callers are not in the source, so whether they pass lone surrogates is unknown; not executed | `Helpers.ByteLengthMiscountsLoneTrail` | `Helpers.ByteLengthPaired` |
| src/lib/helpers.ts:51 | `new TextDecoder()` has ignoreBOM false, so it drops a U+FEFF at the start of the decoded text. | `chunksToString(strToChunks("\uFEFFA", m))` returns `"A"` for every m. | Chunking is lossless: the round trip returns the string unchanged. This needs `new TextDecoder("utf-8", { ignoreBOM: true })`. | high for the behaviour, which the WHATWG Encoding Standard specifies; the callers are not in the source, so whether their strings can start with U+FEFF is unknown; not executed | `TextCodec.LeadingBomDropped` | `Helpers.RoundTripKeepBom` |
