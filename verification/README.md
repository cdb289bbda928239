# A verified model of the Snappy codec and three small components

The Dafny modules in this directory model the Snappy compressor and decompressor kept under `src/3rd/snappy`, and three
small stateful components of the same repository: the free-list allocator of the XML library, the Base58 encoder of the
test tools, and the directory of node service descriptions. They prove what these parts are for:

* **Round trip.** Exactly for the inputs shorter than 2^32 bytes, with both settings of `fast`, decompressing what was
  compressed gives the input back (`RoundTrip.UncompressCompress`). It rests on `Matcher.FragmentYields`: what the matcher emits for a
  block decodes to the block, for any hash function and any schedule of steps, because every copy was found by comparison.
* **One meaning for every decoder.** `Format.DecodeElements` is a flat reference decoder and `Semantics` an independent
  reading of a stream as a list of elements. The streaming decompressor, with any of the four writers and for every way the
  input is cut into regions, accepts the same streams and produces the same bytes
  (`Decompressor.Decompressor.DecompressAllTags`, `Uncompress.*`); `eof` is set exactly if the rest of the stream consists
  of whole elements that the writer accepts.
* **What the matcher finds.** Said without a hash table: the scan stops at the first position looked at whose four bytes are
  those at the last marked position with the same hash, every match is as long as possible, and this determines the output
  (`MatchLaws.FragmentTakesTurns`, `MatchLaws.TurnsGiveFragment`). Repeated input is therefore compressed to one period and a
  copy (`Repetition.PeriodIsFound`). The stored tags are the shortest there are (`Encodings`).
* **Determinism of the compressor.** The imperative compressor writes exactly the bytes of a function of the input, so its
  output does not depend on how the source is cut into regions (`Compress.Compress`), stays within `32 + n + n/6` bytes
  (`Compress.CompressedSize`), and none of its stores leaves the buffer, the over-wide ones included.
* **Components.** The allocator's free list and the live items partition all block items, with the fewest blocks that
  hold as many items as were ever live at once; Base58 is a bijection; the node directory's list names every known node
  once, and no node waits longer than its position allows to be reported.

## How the model is laid out

| file | part |
|---|---|
| `Sequences`, `Bytes`, `Format`, `Semantics`, `Description` | sequences, bytes, the stream format with its reference decoder, the element semantics, and the format as described |
| `TagTable`, `Varint`, `Bits`, `Matching` | the tag lookup table, the length varint, bit searches, match lengths |
| `IncrementalCopy`, `Scatter`, `Progress` | overlapping copies in a buffer, output in pieces, what a writer has produced |
| `SourceSink` | sources with regions of any size, and sinks |
| `ArrayWriter`, `IOVecWriter`, `ScatteredWriter`, `Validator`, `Writers` | the four writers and their common contract |
| `Decompressor`, `Uncompress` | the streaming decompressor and the decompression entry points |
| `Elements`, `Emit`, `Encodings` | encodings of literals and copies, the routines that store them, and what the encodings are |
| `Matcher`, `HashTable`, `BlockCompressor`, `Compress` | the matcher as a function, its table, block and whole-input compression |
| `MatchLaws`, `HashLaws`, `Repetition` | what the matcher finds said without its table, what the hash function is, and repeated input |
| `RoundTrip` | the main theorems about whole strings |
| `MemPool`, `Base58`, `ServiceInfo` | the three components |

Words are numbers; shifts, masks and wrap-around are written as the arithmetic they are. A C++ function with nested loops
and gotos is split into one method per loop round; together the methods make the same stores in the same order.
The four instances of the decompressor's `Writer` template parameter are the variants of one datatype,
`Writers.Writer`. Each writer carries a ghost field `progress` that says what it has produced as the reference decoder sees it.
`Source.Peek` returns any non-empty prefix of what is left below 2^32 bytes, so every theorem about a source holds for every
chunking into such regions.

## What the code does differently from its documentation

* A literal length is computed in 32 bits. A stored length of 0xFFFFFFFF wraps to the empty literal
  (`src/3rd/snappy/snappy.cc:730-731`), where the format description makes it 2^32 bytes. The model follows the code:
  `RoundTrip.HugeLiteralIsEmpty` gives a stream that is accepted because of it, and `Description.StringsAgainstDescription`
  says exactly for which streams code and description agree.
* `CompressFragment` asks for `MaxCompressedLength(input_size)` bytes at `op` (`src/3rd/snappy/snappy.cc:404-405`). A buffer
  of the size that `RawCompress` asks for does not always give the first block that much, because the length varint comes
  first: one byte of input is an example (`Compress.OneByteIsNotRoomy`). Every call finds the documented room if and only
  if the first one does (`Compress.RoomyIff`); in a buffer of exactly the maximal length that is so if and only if the
  input is empty or at least 65538 bytes long (`Compress.MaximumFitsExactly`). The ghost results `roomy` of the compressing
  methods carry these conditions from the calls of `CompressFragment` to `RoundTrip.RawCompress`. No store leaves the
  buffer in any case: the model asks for `StoreRoom(n) = n + n/60 + 18` bytes, which are always there.
* The format holds lengths up to 2^32 - 1 (`src/3rd/snappy/format_description.txt:20`), which the compressor does not check: it
  stores 32 bits of the length (`src/3rd/snappy/snappy.cc:866`). Longer inputs are compressed, but what comes out is refused
  (`RoundTrip.UncompressCompress`).
* The format description says that the compressor works in 32 kB blocks (`src/3rd/snappy/format_description.txt:79-81`). They have
  65536 bytes (`Compress.BlocksStep`).
* The comment on the bound speaks of a blowup of 62/60 for literals and 7/6 in general. The proof gives 61/60 and one byte
  for one block (`Matcher.FragmentSize`); the documented bound follows.

## Model

| member | source | states |
|---|---|---|
| RoundTrip.UncompressCompress | src/3rd/snappy/snappy.cc:861-943 | Decompressing the compressed form of an input gives the input back if and only if it is shorter than 2^32 bytes, for both settings of fast and across block boundaries; of longer inputs the compressed form is refused. |
| RoundTrip.LimitMatters | src/3rd/snappy/snappy.cc:841-854 | Elements that produce x do so under every declared length that x fits in and are refused under all others. |
| RoundTrip.AcceptedStreams | src/3rd/snappy/snappy.cc:830-854 | A stream is accepted with output x if and only if it is a varint of the length of x followed by whole elements whose performance, byte by byte, produces x. |
| RoundTrip.RawCompress | src/3rd/snappy/snappy.cc:1264-1287 | A buffer of the maximal length always suffices, and the reported number of bytes at its front is the compressed form of the input. Every call of CompressFragment got its documented room if and only if MaximumFits holds of the input's and the buffer's length. |
| RoundTrip.CompressString | src/3rd/snappy/snappy.cc:1289-1303 | The resulting string is no longer than the documented bound and decompresses to the input if and only if that is shorter than 2^32 bytes; CompressFragment got its documented room if and only if the input is empty or at least 65538 bytes long. |
| RoundTrip.HugeLiteralIsEmpty | src/3rd/snappy/snappy.cc:730-731 | A concrete stream that by the description holds a 2^32-byte literal is accepted as the empty string. |
| Description.CodeAgainstDescription | src/3rd/snappy/snappy.cc:727-733 | A decoder with the described literal lengths refuses every stream that contains a literal of 2^32 bytes, and gives the code's result for all others. |
| Description.AgreesUnlessHuge | src/3rd/snappy/snappy.cc:727-733 | Where the code reaches the end of a stream, it agrees with the description if and only if no element is such a literal. |
| Description.StringsAgainstDescription | src/3rd/snappy/snappy.cc:830-854 | For whole strings: the description refuses those with such a literal and gives the code's verdict for all others; on accepted strings the two agree if and only if there is no such literal. |
| Semantics.DecoderPerformsElements | src/3rd/snappy/snappy.cc:702-767 | Checking lengths element by element is the same as splitting the stream into elements, performing them all and comparing the total with the declared length. |
| Semantics.PerformGrows | src/3rd/snappy/snappy.cc:702-767 | Performing elements never shrinks what has been produced, so an element that exceeds the declared length can be refused at once. |
| Format.CopyIsPeriodic | src/3rd/snappy/snappy.cc:118-134 | The byte-at-a-time copy is the only extension of the given size that repeats with the period of the offset, and conversely. |
| Format.CopyConcat | src/3rd/snappy/snappy.cc:291-316 | Two copies in a row with one offset are one longer copy. |
| Format.CopyIgnoresHead | src/3rd/snappy/snappy.cc:1386-1397 | A copy looks no further back than its offset, so it may be made inside the current block. |
| Format.DecodeElements | src/3rd/snappy/snappy.cc:702-767 | The reference decoder only ever extends what has been produced and never exceeds the declared length. |
| Format.DecodeTags | src/3rd/snappy/snappy.cc:841-854 | An accepted stream produces exactly as many bytes as were declared. |
| TagTable.TableMatchesFormat | src/3rd/snappy/snappy-internal.h:176-220 | Every one of the 256 table entries is the format's reading of its tag byte: extra bytes, the offset's high bits, length. |
| TagTable.TableIsPackedTags | src/3rd/snappy/snappy-internal.h:187-220 | The table literals are the packed form of the tag fields, entry by entry. |
| Varint.Encode32 | src/3rd/snappy/snappy-stubs-internal.h:507-533 | The five branches all write the shortest little-endian base-128 form. |
| Varint.Parse32WithLimit | src/3rd/snappy/snappy-stubs-internal.h:485-505 | The unrolled parser computes the recursive reading of a varint, for overlong, oversized and truncated ones too. |
| Varint.VarintRoundTrip | src/3rd/snappy/snappy-stubs-internal.h:485-533 | Parsing an encoded value followed by anything returns the value and stops exactly behind it; five bytes always suffice. |
| Varint.VarintSize | src/3rd/snappy/snappy-stubs-internal.h:507-533 | The encoded form takes one byte for every seven bits, no more. |
| Varint.ParseFromEncoded | src/3rd/snappy/snappy-stubs-internal.h:485-533 | The same from any group on. |
| Varint.ParsedFits32Bits | src/3rd/snappy/snappy-stubs-internal.h:500-501 | A parsed value fits 32 bits: the additions never overflow. |
| Bits.Log2Floor | src/3rd/snappy/snappy-stubs-internal.h:417-432 | The result is the exponent of the largest power of two not above n, and -1 for zero. |
| Bits.FindLSBSetNonZero | src/3rd/snappy/snappy-stubs-internal.h:434-445 | The halving search with wrapping shifts finds the number of trailing zeros. |
| Bits.FindLSBSetNonZero64 | src/3rd/snappy/snappy-stubs-internal.h:449-457 | The same for 64 bits, by halves. |
| Bits.ShiftAddsZeros | src/3rd/snappy/snappy-stubs-internal.h:437-441 | A 32-bit shift is zero exactly if the lowest set bit falls out of the word, and otherwise adds its width to the trailing zeros. |
| Bits.ShiftRightBits | src/3rd/snappy/snappy-stubs-internal.h:424-428 | A value shifted right has exactly as many bits fewer as it was shifted by. |
| Matching.MatchLengthIsLargest | src/3rd/snappy/snappy-internal.h:76-84 | n is the match length if and only if n bytes agree and the next ones, if there are any below the limit, differ. |
| Matching.FindMatchLength | src/3rd/snappy/snappy-internal.h:89-137 | The 64-bit version returns the longest common prefix below the limit, and whether it is shorter than 8. |
| Matching.FindMatchLengthPortable | src/3rd/snappy/snappy-internal.h:139-162 | The portable version returns the same. |
| Matching.DifferingWords | src/3rd/snappy/snappy-internal.h:103-125 | Where two words differ, the lowest set bit of their exclusive or lies in the first byte that differs. |
| Matching.EqualWords | src/3rd/snappy/snappy-internal.h:116-119 | Equal words may be skipped as a whole. |
| Matching.OverlappingLoads | src/3rd/snappy/snappy.cc:357-398 | The 32-bit word cut out of an eight-byte load is the load at that offset. |
| IncrementalCopy.IncrementalCopySlow | src/3rd/snappy/snappy.cc:118-134 | Fills the target with the overlapping copy and changes nothing at or past its end; does nothing if the target is empty. |
| IncrementalCopy.IncrementalCopy | src/3rd/snappy/snappy.cc:136-220 | For every pattern size, length and slop the bytes below the end are those of the slow copy, earlier bytes stay, and nothing at or past the buffer's limit changes. |
| IncrementalCopy.ExpandPattern | src/3rd/snappy/snappy.cc:177-198 | Doubling a pattern ends with source and target at least eight apart, at most 13 bytes further, every byte so far right. |
| IncrementalCopy.PeriodDoubles | src/3rd/snappy/snappy.cc:177-198 | A text with some period also has twice that period, which is why the pattern may be doubled. |
| IncrementalCopy.SuffixOfTarget | src/3rd/snappy/snappy.cc:212-219 | Finishing byte by byte from any point reached gives the same text. |
| SourceSink.Source.Peek | src/3rd/snappy/snappy-sinksource.cc:60-70 | A region is a prefix of what is left, of any size, and empty only at the end. |
| SourceSink.UncheckedByteArraySink.Append | src/3rd/snappy/snappy-sinksource.cc:74-80 | Extends the contents by the bytes, whether or not they were put in place beforehand. |
| Decompressor.Decompressor.ReadUncompressedLength | src/3rd/snappy/snappy.cc:641-662 | Reading byte by byte from any regions agrees with the flat varint parser on every byte string, and consumes exactly the varint. |
| Decompressor.ShiftLosesBits | src/3rd/snappy/snappy.cc:653-655 | Shifting a group left and right again in 32 bits loses something exactly if the group does not fit. |
| Decompressor.Decompressor.RefillTag | src/3rd/snappy/snappy.cc:773-828 | On success the next tag and four more bytes are in memory and the rest of the stream is unchanged; on failure eof tells the end of the stream from a tag cut short. |
| Decompressor.Decompressor.Stitch | src/3rd/snappy/snappy.cc:795-814 | Bytes gathered from any number of regions stand for the same stream; failing means that it ends before the tag does. |
| Decompressor.Decompressor.AppendLiteral | src/3rd/snappy/snappy.cc:735-750 | A literal passed on region by region has the effect of the whole literal in the reference decoder. |
| Decompressor.Decompressor.ReadTrailer | src/3rd/snappy/snappy.cc:730-756 | Loading four bytes and masking gives the tag's extra bytes as a number, and the tag the format prescribes. |
| Decompressor.MaskedLoad | src/3rd/snappy/snappy.cc:596-598 | Masking a 32-bit load leaves the little-endian number in its first k bytes. |
| Decompressor.Decompressor.ProcessLiteral | src/3rd/snappy/snappy.cc:717-751 | A literal element, on the fast path or not, and the refill behind it pass the reference decoder's result on. |
| Decompressor.Decompressor.ProcessCopy | src/3rd/snappy/snappy.cc:752-766 | The same for a copy element. |
| Decompressor.Decompressor.DecompressAllTags | src/3rd/snappy/snappy.cc:667-770 | For any writer and any regions: the writer ends with what the reference decoder produces, eof is set exactly if that gets to the end of the stream, and then the source is used up. |
| Writers.Writer.Append | src/3rd/snappy/snappy.cc:553-591 | What every writer does with a literal: appends it or refuses it as the reference decoder does. A writer into an array leaves what lies around the declared length alone, a writer into separate buffers what lies beyond it. |
| Writers.Writer.TryFastAppend | src/3rd/snappy/snappy.cc:570-590 | A fast append that is not declined is an append of at most sixteen bytes and leaves five bytes of input. |
| Writers.Writer.AppendFromSelf | src/3rd/snappy/snappy.cc:553-591 | What every writer does with a copy: the overlapping byte-by-byte copy, or a refusal for an offset of zero, one that is too far back, or too long a copy. |
| Progress.OutcomeOfPartialLiteral | src/3rd/snappy/snappy.cc:735-750 | A literal may be appended in parts as its bytes become available. |
| ArrayWriter.ArrayWriter.Append | src/3rd/snappy/snappy.cc:1151-1160 | The flat writer appends a literal that fits and refuses one that does not, and leaves everything before its start and past the limit alone. |
| ArrayWriter.ArrayWriter.TryFastAppend | src/3rd/snappy/snappy.cc:1162-1173 | The 16-byte store is taken only with five bytes to spare and acts as an append of the literal alone. |
| ArrayWriter.ArrayWriter.AppendFromSelf | src/3rd/snappy/snappy.cc:1175-1189 | The flat writer performs a copy or refuses it, the wrap of offset 0 included, and never writes past the limit. |
| IOVecWriter.IOVecWriter.Append | src/3rd/snappy/snappy.cc:994-1022 | A literal goes across buffers of any size, empty ones included; the concatenation is the flat output, and nothing beyond the declared length changes. |
| IOVecWriter.IOVecWriter.TryFastAppend | src/3rd/snappy/snappy.cc:1024-1037 | The fast path inside one buffer acts as an append; its 16-byte store stays within the declared length. |
| IOVecWriter.IOVecWriter.Locate | src/3rd/snappy/snappy.cc:1048-1061 | Finds the buffer and the place in it that lie offset bytes back. |
| IOVecWriter.IOVecWriter.AppendFromSelf | src/3rd/snappy/snappy.cc:1039-1106 | A copy that crosses buffers on the reading and on the writing side is the flat overlapping copy, and nothing beyond the declared length changes. |
| IOVecWriter.IOVecWriter.CopyWithin | src/3rd/snappy/snappy.cc:1078-1102 | Copying inside the current buffer is copying inside everything written so far. |
| ScatteredWriter.ScatteredWriter.SlowAppend | src/3rd/snappy/snappy.cc:1405-1433 | A literal that needs new blocks is appended or refused as in the flat writer; all blocks but the last have the full size. |
| ScatteredWriter.ScatteredWriter.AppendFromSelf | src/3rd/snappy/snappy.cc:1386-1397 | A copy inside the last block or across blocks is the flat overlapping copy. |
| ScatteredWriter.ScatteredWriter.SlowAppendFromSelf | src/3rd/snappy/snappy.cc:1436-1457 | The byte-by-byte copy across blocks performs the copy or refuses it, the wrap of offset 0 included. |
| ScatteredWriter.ScatteredWriter.TryFastAppend | src/3rd/snappy/snappy.cc:1372-1384 | The fast path acts as an append. |
| ScatteredWriter.ScatteredWriter.ByteAt | src/3rd/snappy/snappy.cc:1452-1452 | The byte produced at position src lies in block src >> 16 at src & 65535. |
| ScatteredWriter.ScatteredWriter.Flush | src/3rd/snappy/snappy.cc:1399-1401 | After a stream without refusal the sink receives exactly what was produced. |
| ScatteredWriter.SinkAllocator.Flush | src/3rd/snappy/snappy.cc:1475-1485 | The sink receives the blocks in order, cut off at the given size. |
| Scatter.PositionInPieces | src/3rd/snappy/snappy.cc:1450-1455 | In pieces of 65536 bytes a global position is found by its high and low bits. |
| Scatter.CopyOfEarlierPiece | src/3rd/snappy/snappy.cc:1067-1076 | A copy whose source lies in a finished piece appends that piece's bytes. |
| Scatter.CopyOfCurrentPiece | src/3rd/snappy/snappy.cc:1094-1101 | A copy whose source lies in the current piece is a copy inside that piece. |
| Scatter.PutKeepsBeyond | src/3rd/snappy/snappy.cc:1025-1027 | A store into one piece that ends at some global position changes nothing from there on. |
| Validator.Validator.Append | src/3rd/snappy/snappy.cc:1235-1238 | Counting bytes gives the same verdict as storing them. |
| Validator.Validator.AppendFromSelf | src/3rd/snappy/snappy.cc:1242-1248 | Counting gives the same verdict on copies. |
| Uncompress.InternalUncompressAllTags | src/3rd/snappy/snappy.cc:841-854 | True if and only if the reference decoder accepts, for every writer with enough room; then the writer holds the output, a sink has received it and the source is used up. Accepted or not, of the memory that a writer was given nothing outside the declared length changes. |
| Uncompress.InternalUncompress | src/3rd/snappy/snappy.cc:830-839 | The same with the length read from the stream. |
| Uncompress.RawUncompress | src/3rd/snappy/snappy.cc:1197-1205 | True if and only if the stream is valid; the array then starts with its output and the source is used up. For rejected streams too, nothing past the declared length changes. |
| Uncompress.RawUncompressToIOVec | src/3rd/snappy/snappy.cc:1111-1121 | True if and only if the stream is valid and the buffers have room for it; their concatenation then starts with its output and the source is used up. An empty output needs no buffers. For rejected streams too, nothing beyond the declared length changes. |
| Uncompress.IsValidCompressed | src/3rd/snappy/snappy.h:185-190 | True exactly for the streams that decompress; success consumes all of the source. |
| Uncompress.GetUncompressedLength | src/3rd/snappy/snappy.cc:318-327 | The length the stream declares, or failure exactly if its varint is malformed. |
| Uncompress.UncompressString | src/3rd/snappy/snappy.cc:1207-1219 | True if and only if the stream is valid; the string is then its output. |
| Uncompress.UncompressToSink | src/3rd/snappy/snappy.cc:1511-1539 | True if and only if the stream is valid, for a sink with a buffer of its own and for one that offers a buffer of any size; the sink has then received the output, and the source is used up. |
| Elements.LiteralYields | src/3rd/snappy/snappy.cc:224-267 | The encoding of a literal, followed by anything, decodes to the literal and what follows, for every length. |
| Elements.PieceYields | src/3rd/snappy/snappy.cc:269-289 | The two- or three-byte encoding of a copy of length 4 to 64 decodes to that copy. |
| Elements.CopyYields | src/3rd/snappy/snappy.cc:291-316 | However long a copy is, the pieces it is split into decode to one overlapping copy. |
| Elements.LiteralSize | src/3rd/snappy/snappy.cc:78-80 | A literal of up to 64 KB takes one, two or three bytes beyond its own, depending on its length. |
| Elements.CopySize | src/3rd/snappy/snappy.cc:82-94 | A copy takes fewer bytes than it produces. |
| Encodings.PieceSize | src/3rd/snappy/snappy.cc:275-288 | A copy tag takes two bytes if and only if the length is below 12 and the offset below 2048, and three otherwise. |
| Encodings.ShortestCopy | src/3rd/snappy/snappy.cc:269-289 | No other tag that stands for the copy is as short as the one that is stored. |
| Encodings.CopyPieces | src/3rd/snappy/snappy.cc:291-316 | A copy is stored as pieces of 64 as long as four bytes remain, and the rest as one piece, or as one of 60 and another. |
| Encodings.CopyElementSize | src/3rd/snappy/snappy.cc:291-316 | The exact number of bytes that a copy takes, from offset and length. |
| Encodings.HeaderSize | src/3rd/snappy/snappy.cc:248-264 | The exact number of bytes that the length of a literal takes. |
| Encodings.ShortestLiteral | src/3rd/snappy/snappy.cc:248-264 | No other tag that stands for the literal's length is as short as the one that is stored. |
| Encodings.ShortLiteralTag | src/3rd/snappy/format_description.txt:52-54 | A length up to 60 in the tag byte is read as the format describes. |
| Encodings.LongLiteralTag | src/3rd/snappy/format_description.txt:55-59 | So is one in one to four bytes behind the tag byte. |
| Encodings.OneByteCopyTag | src/3rd/snappy/format_description.txt:91-95 | So is a copy with eleven bits of offset, three of them in the tag byte. |
| Encodings.WideCopyTag | src/3rd/snappy/format_description.txt:100-110 | So is a copy with two or four bytes of offset. |
| Elements.YieldsConcat | src/3rd/snappy/snappy.cc:505-515 | Encodings that follow each other produce one after the other. |
| Emit.EmitLiteral | src/3rd/snappy/snappy.cc:224-267 | Stores the literal's encoding behind what is there, on the fast path with a 16-byte store inside the buffer. |
| Emit.EmitCopyAtMost64 | src/3rd/snappy/snappy.cc:269-289 | Stores the copy's tag, which by ShortestCopy is the only one as short; the four-byte store stays inside the buffer. |
| Emit.EmitCopy | src/3rd/snappy/snappy.cc:291-316 | Stores the pieces of a copy of any length of at least four, which are those of CopyPieces. |
| Matcher.Scan | src/3rd/snappy/snappy.cc:447-486 | For any schedule of steps, a match found agrees in four bytes with an earlier candidate; table entries stay before the position that is looked up. |
| Matcher.Copies | src/3rd/snappy/snappy.cc:505-530 | Every round moves at least four bytes on and keeps the table entries before the next position. |
| Matcher.MatchIsCopy | src/3rd/snappy/snappy.cc:511-515 | A copy from an earlier occurrence reproduces the match, even if both overlap. |
| Matcher.CopiesYield | src/3rd/snappy/snappy.cc:494-530 | The copies emitted for a match and for those that follow it produce exactly the input they cover. |
| Matcher.MainLoopYields | src/3rd/snappy/snappy.cc:435-541 | What the main loop emits produces the rest of the input, for any hash function and any schedule. |
| Matcher.FragmentYields | src/3rd/snappy/snappy.cc:60-71 | Any hash function and any schedule of steps give a valid compressed stream: a fragment decodes to its block. |
| Matcher.FragmentSize | src/3rd/snappy/snappy.cc:73-95 | For any hash function and any schedule, a fragment takes at most 61/60 of its block and one byte more. |
| Matcher.StepWidth | src/3rd/snappy/snappy.cc:470-474 | Both settings of fast are schedules that never stand still. |
| MatchLaws.StepsOfTheCode | src/3rd/snappy/snappy.cc:459-474 | Without fast every position is looked at; with it the step is the number of whole 32s in the skip counter, so that the first 32 positions are looked at. |
| MatchLaws.LatestIsLast | src/3rd/snappy/snappy.cc:479-483 | What is remembered of a hash is the last position that was marked with it, or 0. |
| MatchLaws.ScanStopsAtFirstRepeat | src/3rd/snappy/snappy.cc:464-486 | The table always holds the last marked positions, and the scan stops at the first position looked at whose four bytes are those at the last marked position with the same hash, or when the next position lies beyond the limit. |
| MatchLaws.CopiesFollowChain | src/3rd/snappy/snappy.cc:505-533 | The copies are those of a chain of matches without gaps, each as long as possible and each found at the last marked position with the same hash. |
| MatchLaws.FragmentTakesTurns | src/3rd/snappy/snappy.cc:412-546 | A fragment consists of turns: positions looked at in vain, one literal, one chain. |
| MatchLaws.TurnsGiveFragment | src/3rd/snappy/snappy.cc:412-546 | The turns allow one result only: whatever can be described by them is the fragment, for any table size. |
| Repetition.PeriodIsFound | src/3rd/snappy/snappy.cc:447-486 | An input that repeats itself every p bytes, with different hashes for the words of the first period, becomes one literal with that period and one copy. |
| Repetition.PeriodOfBlock | src/3rd/snappy/snappy.cc:861-943 | The same for a block with the hash function and the schedules of the code. |
| Repetition.TwentyTimesTenLetters | src/3rd/snappy/snappy.cc:861-943 | "abcdefghij" twenty times over takes 22 bytes, with both settings of fast. |
| HashTable.HashesIntoTable | src/3rd/snappy/snappy.cc:65-71 | Every hash is an index into the power-of-two table. |
| HashLaws.HashOfOne | src/3rd/snappy/snappy.cc:65-68 | The hash of 1, not shifted, is 0x1e35a7bd. |
| HashLaws.HashIsAdditive | src/3rd/snappy/snappy.cc:65-68 | Not shifted, the hash of a 32-bit sum is the 32-bit sum of the hashes. |
| HashLaws.HashIsInjective | src/3rd/snappy/snappy.cc:65-68 | Not shifted, no two words have the same hash. |
| HashLaws.HashKeepsTopBits | src/3rd/snappy/snappy.cc:65-68 | A shifted hash is the unshifted one without its low bits. |
| HashLaws.TableHash | src/3rd/snappy/snappy.cc:422-423 | The hash for a table is made of as many top bits of the product as the table's size has. |
| HashTable.LogIsExact | src/3rd/snappy/snappy.cc:421-423 | The logarithm from which the shift is computed is the exponent of the table size. |
| HashTable.TableBitsFit | src/3rd/snappy/snappy.cc:336-339 | The table size is no smaller than the input unless it is the largest allowed, and half of it would be too small unless it is the smallest. |
| HashTable.TableInNumbers | src/3rd/snappy/snappy.cc:336-339 | The size is a power of two from 256 to 16384, no smaller than the input unless it is 16384, and less than twice the input unless it is 256. |
| HashTable.WorkingMemory.GetHashTable | src/3rd/snappy/snappy.cc:330-354 | The table is zeroed, has the size described above, and is the small array if and only if 1024 entries are enough. |
| BlockCompressor.ScanForMatch | src/3rd/snappy/snappy.cc:462-486 | The scanning loop, its skip counter included, computes the matcher's scan and updates the table in place. |
| BlockCompressor.EmitCopies | src/3rd/snappy/snappy.cc:505-533 | The copy loop stores the matcher's copies and leaves its table. |
| BlockCompressor.CompressWithHash | src/3rd/snappy/snappy.cc:412-546 | For any hash function the fragment of the matcher is stored behind what is there, and every store fits the buffer. |
| BlockCompressor.CompressFragment | src/3rd/snappy/snappy.cc:400-546 | The same with the hash function of TableHash, from the table size; the room needed is less than what is documented. |
| BlockCompressor.MaximumInNumbers | src/3rd/snappy/snappy.cc:94-94 | The maximal length is 32 more than the input and a sixth of it, rounded down. |
| Compress.ReadBlock | src/3rd/snappy/snappy.cc:875-909 | The next bytes of the source, from one region or gathered from several; together with the pending skip exactly they are consumed. |
| Compress.BlocksYield | src/3rd/snappy/snappy.cc:874-935 | The blocks of an input, one after the other, decode to the whole input. |
| Compress.BlocksSize | src/3rd/snappy/snappy.cc:73-95 | What all blocks take together. |
| Compress.CompressedSize | src/3rd/snappy/snappy.cc:73-95 | The compressed form of n bytes takes at most 32 + n + n/6, for every n. |
| Compress.BlocksStep | src/3rd/snappy/snappy.cc:879-931 | The blocks are those of the first 65536 bytes, or of all if there are fewer, and of the rest. |
| Compress.AmpleAfterBlock | src/3rd/snappy/snappy.cc:915-933 | If a buffer of the maximal length has room for all that is still to come before a block, it has so after the block. |
| Compress.LaterBlocksRoomy | src/3rd/snappy/snappy.cc:400-409 | Behind a first whole block every block finds the room that CompressFragment's documentation asks for. |
| Compress.RoomyIff | src/3rd/snappy/snappy.cc:400-409 | In any buffer of at least the maximal length, all blocks find that room if and only if it is there behind the length varint. |
| Compress.MaximumFitsExactly | src/3rd/snappy/snappy.cc:400-409 | In a buffer of exactly the maximal length that is so if and only if the input is empty or at least two bytes longer than one block. |
| Compress.OneByteIsNotRoomy | src/3rd/snappy/snappy.cc:400-409 | One byte of input, in a buffer of the maximal length, is an example where it is not. |
| Compress.CompressBlock | src/3rd/snappy/snappy.cc:911-931 | One block goes to the sink, straight into its buffer or through the scratch buffer. |
| Compress.CompressBlocks | src/3rd/snappy/snappy.cc:874-935 | The loop consumes the source and extends the sink by the compressed blocks; whether each call of CompressFragment found its documented room is what Roomy says. |
| Compress.Compress | src/3rd/snappy/snappy.cc:861-943 | Whatever the regions, the sink is extended by the length varint and the blocks of the input, and the number of bytes is returned; CompressFragment always got its documented room if and only if MaximumFits holds. |
| MemPool.DynArray.EnsureCapacity | src/3rd/xml/tinyxml2.h:303-317 | Growing keeps the contents and doubles the needed capacity. |
| MemPool.DynArray.Push | src/3rd/xml/tinyxml2.h:226-231 | Appends one element. |
| MemPool.DynArray.Pop | src/3rd/xml/tinyxml2.h:242-246 | Removes and returns the last element. |
| MemPool.DynArray.SwapRemove | src/3rd/xml/tinyxml2.h:282-287 | Removes one occurrence of the element: the last one takes its place. |
| MemPool.MemPoolT.Alloc | src/3rd/xml/tinyxml2.h:375-399 | Never returns a live item; takes the head of the free list, or a fresh block's first item if the list is empty; keeps the partition and all counters right. |
| MemPool.MemPoolT.AddFreeBlock | src/3rd/xml/tinyxml2.h:376-387 | A new block's items become the free list, in order and acyclic; it is only taken when all others are live. |
| MemPool.MemPoolT.Free | src/3rd/xml/tinyxml2.h:401-412 | A live item becomes the head of the free list; a null pointer changes nothing. |
| MemPool.SwapRemoved | src/3rd/xml/tinyxml2.h:282-287 | Overwriting an element with the last one and dropping that one removes one occurrence. |
| MemPool.MemPoolT.Clear | src/3rd/xml/tinyxml2.h:355-366 | Leaves an empty pool with all counters at zero. |
| MemPool.MemPoolT.Overwrite | src/3rd/xml/tinyxml2.h:444-447 | Whatever a client writes into a live item, link included, the pool stays valid. |
| MemPool.FewestBlocks | src/3rd/xml/tinyxml2.h:375-399 | The number of blocks is the high-water mark divided by the items per block, rounded up: fewer would not hold them. |
| MemPool.AddBlock | src/3rd/xml/tinyxml2.h:376-387 | With nothing free, a block of new items extends the partition. |
| MemPool.NeighboursLinked | src/3rd/xml/tinyxml2.h:381-386 | Items each linked to the next, the last to null, form the list. |
| Base58.B58EncodeInt | tool/dbc_test/base58.py:46-54 | The loop writes the base-58 digits without leading zeros, or a single letter for zero if asked to. |
| Base58.B58Encode | tool/dbc_test/base58.py:57-73 | The loops compute one '1' for each leading zero byte and the rest as a base-58 number. |
| Base58.B58DecodeInt | tool/dbc_test/base58.py:76-84 | The number with the given digits, or an error exactly if some character is no letter of the alphabet. |
| Base58.B58Decode | tool/dbc_test/base58.py:87-103 | The loops compute one zero byte for each leading '1' and the bytes of the number. |
| Base58.DecodeEncode | tool/dbc_test/base58.py:57-103 | Decoding an encoded byte string gives it back, leading zeros included. |
| Base58.EncodeDecode | tool/dbc_test/base58.py:57-103 | Exactly the texts over the alphabet decode, and encoding the result gives the text back. |
| Base58.Bijection | tool/dbc_test/base58.py:57-103 | v encodes to s if and only if s decodes to v. |
| Base58.ValueOfDigits | tool/dbc_test/base58.py:46-54 | Reading the digits of a number gives the number. |
| Base58.DigitsOfValue | tool/dbc_test/base58.py:98-103 | A digit string without leading zeros is the only one for its number. |
| Base58.IndexOfLetter | tool/dbc_test/base58.py:17-17 | No letter of the alphabet occurs twice. |
| Base58.LettersOfAlphabet | tool/dbc_test/base58.py:17-17 | The letters ascend in ASCII: digits, upper-case letters, lower-case letters. |
| Base58.WhichLetters | tool/dbc_test/base58.py:17-17 | They are the digits and letters of ASCII without 0, O, I and l. |
| Base58.ValuePrepend | tool/dbc_test/base58.py:66-69 | A digit in front counts with the weight of its place, a power of the base. |
| Base58.EncodedNumber | tool/dbc_test/base58.py:57-73 | Text and byte string stand for the same number, and as many letters 1 stand in front as there are zero bytes. |
| Base58.EncodingOf255 | tool/dbc_test/base58.py:57-73 | 255 is written 5Q, and with a zero byte in front 15Q. |
| Base58.CheckRoundTrip | tool/dbc_test/base58.py:106-123 | For any hash the checked form round-trips if and only if the digest has at least four bytes or the payload is empty. |
| Base58.CheckAcceptsOnlyEncoded | tool/dbc_test/base58.py:106-123 | With digests of four bytes and more, a text decodes to v if and only if it is the checked encoding of v. |
| Base58.ChecksumInFront | tool/dbc_test/base58.py:109-110 | The checked encoding stands for the payload and the first four bytes of its digest. |
| Base58.ValidChecksum | tool/dbc_test/base58.py:116-123 | With digests of four bytes and more, a text is valid for v if and only if it stands for v and the first four bytes of the digest of v; it is refused as no Base58 if and only if a character is foreign. |
| Base58.B58DecodeCheck | tool/dbc_test/base58.py:113-123 | Computes the checked decoding with its two errors. |
| Base58.B58EncodeCheck | tool/dbc_test/base58.py:106-110 | Computes the checked encoding. |
| ServiceInfo.ServiceInfoManager.Add | src/dbc/service_info/ServiceInfoManager.cpp:6-18 | A new node is added at the end of the list; a known one is replaced if and only if its time stamp is smaller. |
| ServiceInfo.ServiceInfoManager.AddAll | src/dbc/service_info/ServiceInfoManager.cpp:20-24 | After adding a map every entry has replaced what was known if and only if that had a smaller time stamp, and other nodes are untouched. |
| ServiceInfo.ServiceInfoManager.RemoveUnlivedNodes | src/dbc/service_info/ServiceInfoManager.cpp:59-72 | A node stays if and only if its time stamp is at least now - sec, in map and list, and those that stay keep their order. |
| ServiceInfo.WithoutOfBoth | src/dbc/service_info/ServiceInfoManager.cpp:63-67 | Removing from two lists in a row is removing from each, so the order of what stays does not change. |
| ServiceInfo.ServiceInfoManager.GetChangeSet | src/dbc/service_info/ServiceInfoManager.cpp:78-91 | Reports exactly the first 48 nodes, or all if there are fewer, with their current descriptions, and moves them behind the others. |
| ServiceInfo.ReportAndRotation | src/dbc/service_info/ServiceInfoManager.cpp:81-88 | What is reported and where every position of the list moves, in numbers. |
| ServiceInfo.ServiceInfoManager.Update | src/dbc/service_info/ServiceInfoManager.cpp:44-49 | Changes one entry of a known node's description and nothing else. |
| ServiceInfo.ServiceInfoManager.UpdateTimeStamp | src/dbc/service_info/ServiceInfoManager.cpp:51-57 | Changes a known node's time stamp and nothing else. |
| ServiceInfo.ServiceInfoManager.Find | src/dbc/service_info/ServiceInfoManager.cpp:34-42 | Exactly the nodes on the list can be found, with their descriptions. |
| ServiceInfo.Newer | src/dbc/service_info/ServiceInfoManager.cpp:11-17 | What is kept is at least as new as both descriptions; Add says which of two equally new ones. |
| ServiceInfo.RemovedAll | src/dbc/service_info/ServiceInfoManager.cpp:59-72 | Removing nodes from map and list keeps the list a duplicate-free listing of the map's keys. |
| ServiceInfo.SurvivorMovesUp | src/dbc/service_info/ServiceInfoManager.cpp:63-67 | Removing other nodes only moves a node towards the front. |
| ServiceInfo.AddAllIsRun | src/dbc/service_info/ServiceInfoManager.cpp:20-24 | Adding a map is a run of additions, with no change set and no removal in it, so the statements over all runs cover it. |
| ServiceInfo.NoStarvation | src/dbc/service_info/ServiceInfoManager.cpp:78-91 | In every run in which it is not removed, a node at index p is in one of the next p / 48 + 1 change sets, whatever is added and removed in between. |
| ServiceInfo.NotEarlier | src/dbc/service_info/ServiceInfoManager.cpp:78-91 | Without removals it is first reported in exactly that change set. |

## Left out

- Big-endian machines, SSE2 moves, branch hints, assembly and alignment macros: one little-endian machine with byte arrays.
- The C wrapper, benchmarks, reporting hooks, the zlib test wrapper and file access.
- Output of rejected streams (`UncompressAsMuchAsPossible`): those bytes mean nothing, and the scattered writer's count is not exact there.
- The comparison with `max_size()` in `Uncompress`: a string of any 32-bit length is assumed to be possible.
- The bytes that the destructor of the decompressor skips: they were peeked at, and no result depends on them.
- `AppendAndTakeOwnership` hands over memory in the original; the model appends the bytes.
- SourceSink.Source.Peek: regions of 2^32 bytes and more, which the 32-bit `peeked_` cannot count, and regions longer than `Available()`, which `src/3rd/snappy/snappy-sinksource.h:128-131` allows. Compression copes with the latter; the decompressor takes a region as a whole and would decode what lies behind the end, so the guarantee given here does not extend to such sources.
- Uncompress.RawUncompressToIOVec: no buffers at all together with a declared length above 0, where the original may look at a buffer that does not exist.
- BlockCompressor.ScanForMatch: the skip counter is not wrapped; it stays far below 2^32 for a block.
- The `count` variable of `CompressFragment`, which nothing reads.
- MemPool.DynArray.EnsureCapacity: integers do not overflow; the original asserts that they do not. `PushArr` and `PopArr` are several calls of `Push` and `Pop`.
- MemPool.MemPoolT.Free: freeing what is not live is excluded, as the original cannot detect it; the debug fill pattern is left out.
- Base58.B58EncodeInt: negative numbers, on which the original does not terminate.
- Base58.EncodedCheck: SHA-256 is an arbitrary function from byte strings to byte strings.
- The rest of the XML library, and every other component of the repository: network code, databases, virtual machine and firewall control, configuration, logging.
- ServiceInfo.ServiceInfoManager.RemoveUnlivedNodes: the clock is a parameter; null descriptions, which the original would dereference, do not occur.
