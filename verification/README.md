# Verified models of libinac

Dafny models of the algorithmic parts of libinac, with proofs of what they promise. `dafny verify
dfyconfig.toml` checks everything.

**LZ4 block codec** (`contribs/lz4`). `Lz4Block` defines sequences, blocks, their encoding, their meaning
and the parsing restrictions of the format. `Lz4Reference` is the decoder as a function, step by step, with
every branch and error of the source, and `Lz4Accepted` says exactly which inputs it accepts; `Lz4Decoder`
is the decoder as it runs, over-copying into the output array through `inc32table` and `dec64table`, proved
against that function. `Lz4Matcher`, `Lz4Writer`, `Lz4Encoder` and `Lz4DestSize` are the two compressors;
their results are restricted blocks for the consumed input. `Lz4Plan` is the block the compressor makes as a
function, so that limits and sizes only decide whether it fits. `Lz4InputEnd` and `Lz4Limit` say exactly
when the decoder reads behind its input and the encoder stores behind its limit. `Lz4Codec` and `Lz4Stream`
put both sides together: round trip, fill-to-size round trip, and round trip of a whole stream in prefix
mode.

**Memory pool** (`src/memory.c`): `Mempool`. One class invariant carries disjointness of all live blocks,
the bounds of every chunk and, in a clean pool, zero free space; every operation and every store by a
client in its own block keeps it.

**CPU topology** (`contribs/cpu-topology`): `ApicId` for the masks and sub-IDs, `Topology` for the loop that
numbers packages, cores and threads.

**Hashes** (`src/hash.c`): `Murmur3` and `Crc32`. **List** (`src/list.c`): `List`, with the in-place merge
sort. **Hash table** (`src/hashtable.c`): `HashTable`, as a finite map. **Cron** (`src/cron.c`): `Cron`, from
the text of a pattern to the test of a tick. **Base64** (`src/util.c`): `Base64`.

Where the code and its documentation differ, the models follow the code:

- `LZ4_decompress_safe` is documented never to read outside its input. It does, by at most two bytes, if and
  only if it has room for output and comes to a turn that starts at the end of the input, or at a last byte whose
  token announces a length byte (`Lz4InputEnd.CallReadsBehindIff`; the input 0xF0 alone is the witness
  `OneByteReadsBehind`). No block makes it do so (`BlocksStayInside`), and a result below
  -1 - compressedSize gives it away (`ResultTells`).
- The decoder's fast path does not test the end-of-block margins, so it accepts blocks the general path
  rejects. `Lz4RoundTrip.ShortcutAgreesIff` says exactly when the two agree.
- A compressor with limited output is documented never to write outside its destination. After a match it
  tests the limit against matchCode / 256, where the length takes matchCode / 255 bytes, in stores of four, and
  the token and offset of a match that follows at once are stored without a test of their own. All these stores
  stay below the limit for every limit if and only if (matchCode + 240) / 255 <= matchCode / 256 + 3, with
  such a match behind (`Lz4Limit.LimitTestExact`, which has the case without one too); 134655 is the first code
  that fails (`ShortMatchKeepsLimit`). What a call leaves at and past its limit is exactly the tail of its last
  match (`Lz4Encoder.CompressGeneric`, `Lz4Limit.Left`), so it stores there if and only if that tail ends
  behind the limit; a call that succeeds never does, nor does one on fewer than 134655 bytes
  (`Lz4Codec.CompressFast`). `Lz4Codec.LimitNotKept` is a witness.
- `LZ4_compress_destSize` is documented to fill the target completely when input is left over. It does if and
  only if (room + 240) % 255 >= (room + 240) / 255, where `room` is what is left behind the last token
  (`Lz4DestSize.CompressDestSizeGeneric`); `Lz4Codec.TargetNotFilled` is a witness. Up to
  1 + (target + 240) / 65025 bytes stay unused. It takes all input if the block of the plain compressor fits with
  three bytes to spare; with two that can fail (`Lz4Codec.SpareBytesNeeded`).
- `INA_MEM_ALIGN_N` is documented to round up to a multiple. It does for every size if and only if the
  alignment is a power of two (`Mempool.AlignIsMultipleIff`).
- `ina_mempool_ralloc_aligned` in a dynamic pool opens a new chunk when a block does not fit, and then hands
  out memory of the first chunk all the same. The model stops with `Outside` there, if and only if the pool is
  dynamic and the block does not fit (`Mempool.Pool.Ralloc`); `Mempool.RallocMisplaced` is a witness.
- `ina_list_sort` is not stable: equal nodes come out in the opposite order (`List.TiesReversed`). It leaves the head's `prev` null, where the other list operations expect the last node there.
- `ina_hashtable_set` does not count a removed key again when it is set while its slot still holds it. The
  counter is the number of entries if and only if no entry is uncounted (`HashTable.HashTable.Set`, which also
  says who loses a slot); `HashTable.Recount` is a witness, `HashTable.CountedAgain` the other case.
- `AnalyzeCPUHierarchy` sizes its core workspace by the IDs of one package, not by the number of packages
  (`Topology.SmallPackagesFail`).
- `createMask` shifts a 32-bit number too far for 0 entries and for more than 2^31, so the masks of a processor
  that reports fewer thread IDs than core IDs for a package are undefined (`ApicId.Masks.SetLegacyConstants`).
- The parser of a cron field stores below its array if and only if the first item it cannot fill starts at a
  number that, converted to int and with the field's offset, is negative and no multiple of the array's size
  (`Cron.VerdictIff`, `Cron.StartsBelowIff`); witnesses are a month of 0 (`Cron.MonthZero`) and a minute of
  4294967295 (`Cron.MinuteWraps`). The model ends with `Outside` there. A negative multiple is refused
  (`Cron.MultipleRefused`).
- The lists of weekdays and months have the names with a capital letter at indices behind the array, so that
  such a name alone is refused (`Cron.NameAlone`, `Cron.SundayRefused`).
- The cron table has a day 0, so a field that selects the days 1 to 31 is not complete (`Cron.AllRealDays`). A
  range without its second number fills nothing (`Cron.OpenRange`), and a comma may end a field
  (`Cron.TrailingComma`).
- The decoding table of the Base64 codec skips tabs only; a line break or a blank is an error, and a character
  above 127, negative as a signed char, is outside the table (`Base64.DecodeChunk`).

## Model

| member | source | states |
|---|---|---|
| Lz4Block.ByteCopyUnique | contribs/lz4/lz4.c:1306-1332 | the overlapping match copy is determined by its recurrence: a byte string that extends the output and repeats at distance `offset` from there on is the byte-at-a-time copy |
| Lz4Block.ByteCopyZero | contribs/lz4/lz4.c:1263-1266 | offset 0, which no encoder emits, yields zero bytes |
| Lz4Block.AppendRestricted | contribs/lz4/lz4.c:643-665 | a further sequence keeps the parsing restrictions of a block (16-bit offset inside what is decoded, no match starting in the last 12 bytes, none reaching into the last 5) |
| Lz4Reference.SafeStepBounds | contribs/lz4/lz4.c:1206-1333 | a safe-mode step that goes on stays in the input, and one that ends the block is at its end |
| Lz4Reference.SafeStepStaysInside | contribs/lz4/lz4.c:1206-1333 | with two bytes of memory behind the input, holding anything, no safe-mode step leaves it, whatever the bytes are |
| Lz4Reference.SafeDecodeTotal | contribs/lz4/lz4.c:1206-1343 | for every input content and capacity the safe decoder terminates: an error, or an output within capacity after consuming the whole input |
| Lz4InputEnd.StepOutsideIff | contribs/lz4/lz4.c:1206-1240 | a safe-mode step reads behind the input if and only if it starts at its end, or at a last byte whose token announces a length byte |
| Lz4InputEnd.DecodeOutsideIff | contribs/lz4/lz4.c:1205-1343 | decoding reads behind the input if and only if some step it reaches starts in one of these two ways |
| Lz4InputEnd.CallReadsBehindIff | contribs/lz4/lz4.c:1196-1343 | a call of LZ4_decompress_safe reads behind its input if and only if it has room for output and reaches such a step |
| Lz4InputEnd.StepSame | contribs/lz4/lz4.c:1206-1333 | any other step does not depend on what is behind the input |
| Lz4InputEnd.DecodeSame | contribs/lz4/lz4.c:1205-1343 | the same for a whole decoding; one that reads behind the input ends in an error reported there |
| Lz4InputEnd.ResultTells | contribs/lz4/lz4.c:1341-1343 | a caller can tell: the result is below -1 - compressedSize if and only if the call read behind its input |
| Lz4InputEnd.BlocksStayInside | contribs/lz4/lz4.c:1196-1343 | no call on a block, with a capacity that suffices, reads behind it |
| Lz4InputEnd.OneByteReadsBehind | contribs/lz4/lz4.c:1206-1240 | a witness: the input 0xF0 alone |
| Lz4InputEnd.EmptyInputReadsBehind | contribs/lz4/lz4.c:1200-1208 | a witness: the empty input with room for output |
| Lz4Reference.StepGrows | contribs/lz4/lz4.c:1206-1333 | every step of either mode reads on, extends the output and stays within capacity |
| Lz4RoundTrip.StepReadsSequence | contribs/lz4/lz4.c:1206-1333 | one turn of the decoder undoes one encoded sequence, on the fast path and on the general path, in both modes |
| Lz4RoundTrip.StepReadsLast | contribs/lz4/lz4.c:1242-1258 | the last literals are recognised, copied, and end the block |
| Lz4RoundTrip.DecodeInvertsEncode | contribs/lz4/lz4.c:1206-1343 | the bytes of a restricted block, whatever follows them in memory, decode to exactly what the block stands for, consuming exactly those bytes; both modes, with and without the fast path |
| Lz4RoundTrip.EmptyBlock | contribs/lz4/lz4.c:1200-1203 | a block that adds nothing is the single byte 0, which is what the special cases for an empty output accept |
| Lz4RoundTrip.ShortcutAgreesIff | contribs/lz4/lz4.c:1213-1229 | when the fast path is open, the general path does the same if and only if the sequence keeps the end-of-block margins; otherwise the general path fails |
| Lz4RoundTrip.GeneralAcceptsImpliesSame | contribs/lz4/lz4.c:1213-1229 | whatever the general path alone accepts, the decoder with the fast path accepts with the same output |
| Lz4RoundTrip.ShortcutAcceptsMore | contribs/lz4/lz4.c:1213-1229 | the converse is false: a concrete 18-byte block that only the decoder with the fast path accepts |
| Lz4Accepted.StepReads | contribs/lz4/lz4.c:1206-1333 | every step that goes on, in either mode, has read the encoding of a sequence whose offset lies within the history and the output so far, and has expanded it; in safe mode it kept the margins of one of the two paths |
| Lz4Accepted.LastReads | contribs/lz4/lz4.c:1242-1258 | every step that ends has read last literals, whatever the low half of their token |
| Lz4Accepted.DecodeReads | contribs/lz4/lz4.c:1205-1343 | the converse of the round trip: whatever is accepted is a block, and the output is what it stands for |
| Lz4Accepted.AcceptedStep | contribs/lz4/lz4.c:1206-1333 | a sequence that keeps the conditions of either path is read |
| Lz4Accepted.LastStepReads | contribs/lz4/lz4.c:1242-1258 | last literals that end the input and fit the output are read |
| Lz4Accepted.SafeAcceptsIff | contribs/lz4/lz4.c:1205-1343 | a safe decoding succeeds if and only if its input is such a block and its meaning fits the capacity, and then that is the output |
| Lz4Accepted.SafeCallIff | contribs/lz4/lz4.c:1196-1343 | the same for the result of a call of LZ4_decompress_safe |
| Lz4Accepted.FarOffsetFails | contribs/lz4/lz4.c:1262-1265 | no safe step goes on with an offset beyond the start of the history |
| Lz4Accepted.SameSequence | contribs/lz4/lz4.c:1206-1279 | the literals and the offset of a sequence can be read in one way only |
| Lz4Memory.WildCopy | contribs/lz4/lz4.c:279-287 | the 8-byte copy may run over its end, and leaves bytes that repeat at the read distance even where it read its own output |
| Lz4Memory.WildCopyIn | contribs/lz4/lz4.c:279-287 | the same from the input buffer, with exact bounds on what is overwritten |
| Lz4Decoder.TableFacts | contribs/lz4/lz4.c:1308-1316 | inc32table and dec64table continue the period of an offset below 8 and leave the read position a multiple of the offset behind, at least 8 bytes |
| Lz4Decoder.RepeatsAtMultiple | contribs/lz4/lz4.c:1308-1331 | reading at a multiple of the offset continues the period of the offset |
| Lz4Decoder.MatchIsByteCopy | contribs/lz4/lz4.c:1306-1332 | what the first 8 bytes and the rest of a match leave is the byte-at-a-time copy, for every offset |
| Lz4Decoder.FirstEight | contribs/lz4/lz4.c:1306-1317 | the first 8 bytes of a match repeat at its offset; only those bytes change |
| Lz4Decoder.CopyRest | contribs/lz4/lz4.c:1319-1331 | the rest of a match near and far from the end of the output: right up to its end, and no store behind the output buffer |
| Lz4Decoder.CopyMatch | contribs/lz4/lz4.c:1306-1332 | the match copy as a whole equals the byte-at-a-time copy for every offset, keeps earlier bytes, and succeeds if and only if the match ends 5 bytes before the end |
| Lz4Decoder.WriteOffset32 | contribs/lz4/lz4.c:1266-1266 | the four scratch bytes before a match |
| Lz4Decoder.ReadLiteralLength | contribs/lz4/lz4.c:1231-1240 | the literal-length loop against its specification, also on malformed input |
| Lz4Decoder.ReadMatchLength | contribs/lz4/lz4.c:1268-1279 | the match-length loop, including its end-of-input error |
| Lz4Decoder.DecodeShortcut | contribs/lz4/lz4.c:1213-1229 | the 16/18-byte moves leave exactly the sequence's bytes and store only inside the output buffer |
| Lz4Decoder.DecodeMatch | contribs/lz4/lz4.c:1262-1333 | offset, match length and match copy do what the reference step says, error cases included |
| Lz4Decoder.DecodeLast | contribs/lz4/lz4.c:1242-1258 | the end of the block, error cases included |
| Lz4Decoder.DecodeGeneral | contribs/lz4/lz4.c:1231-1333 | the general path refines the reference step |
| Lz4Decoder.DecodeSequence | contribs/lz4/lz4.c:1206-1333 | one turn of the in-place loop refines the reference step and changes nothing outside the output buffer |
| Lz4Decoder.DecodeLoop | contribs/lz4/lz4.c:1205-1343 | the whole loop computes the reference decoding |
| Lz4Decoder.DecompressGeneric | contribs/lz4/lz4.c:1169-1344 | result value, decoded bytes and untouched memory, for both modes and any amount of prefix history, wherever decoding stays in its input |
| Lz4Decoder.DecompressSafe | contribs/lz4/lz4.c:1348-1351 | on every call that does not read behind its input: a non-negative result is the length of the output, at most the capacity, and nothing behind the capacity changes |
| Lz4Decoder.SafeOutcome | contribs/lz4/lz4.c:1200-1343 | the outcome of a safe call is an error or a complete decoding within capacity |
| Lz4Decoder.DecompressFast | contribs/lz4/lz4.c:1360-1363 | the trusting decoder returns the number of input bytes read |
| Lz4Decoder.FastFillsOutput | contribs/lz4/lz4.c:1242-1258 | its success means that the output is exactly full |
| Lz4Matcher.Read32Injective | contribs/lz4/lz4.c:202-203 | word comparison is comparison of four bytes |
| Lz4Matcher.CommonBytes | contribs/lz4/lz4.c:343-412 | LZ4_NbCommonBytes as the index of the first differing byte |
| Lz4Matcher.Count | contribs/lz4/lz4.c:415-439 | the word-wise count is exactly the length of the longest common prefix up to the limit |
| Lz4Matcher.CountTail | contribs/lz4/lz4.c:431-439 | its last steps by 4, 2 and 1 bytes |
| Lz4Matcher.HashPosition | contribs/lz4/lz4.c:475-497 | every hash is an index of the table |
| Lz4Matcher.HashValues | contribs/lz4/lz4.c:475-497 | the two hashes of eight given bytes |
| Lz4Matcher.PutPositionOnHash | contribs/lz4/lz4.c:500-508 | no position put in the table is truncated |
| Lz4Matcher.PutPosition | contribs/lz4/lz4.c:510-514 | one entry changes, and all entries stay below the current position |
| Lz4Matcher.AcceptedIsMatch | contribs/lz4/lz4.c:616-618 | a candidate that passes the tests is a match in reach of a 16-bit offset, whatever the table held; the 16-bit table needs no distance test |
| Lz4Matcher.FindMatch | contribs/lz4/lz4.c:592-619 | a position found is at or before the match limit, with a verified match, and it is the first one if its candidate is accepted; entries stay strictly below the position; the position, the candidate and the table are those of the search as a function |
| Lz4Matcher.CatchUp | contribs/lz4/lz4.c:621-622 | backward extension keeps the offset, stays above the anchor and the low limit, and stops only at one of them or at a difference, as the function says |
| Lz4Matcher.NextCandidate | contribs/lz4/lz4.c:693-703 | the candidate is what the table held, strictly below the position recorded in its place |
| Lz4Writer.WriteLength | contribs/lz4/lz4.c:631-634 | the byte-wise length loop writes the length bytes of the format |
| Lz4Writer.WriteLengthBy4 | contribs/lz4/lz4.c:670-680 | the four-byte length loop writes the same bytes and runs over by at most 3 |
| Lz4Writer.EncodeLiterals | contribs/lz4/lz4.c:624-641 | token, length and literals |
| Lz4Writer.EncodeMatch | contribs/lz4/lz4.c:647-683 | completes the encoding of the sequence, for both ways of writing a long length, and how far its scratch bytes reach |
| Lz4Writer.EncodeLastLiterals | contribs/lz4/lz4.c:713-729 | the encoding of the last literals, with nothing written behind it |
| Lz4Plan.AfterMatch | contribs/lz4/lz4.c:643-709 | how the planned block goes on behind a match: the end, another match, or another search |
| Lz4Plan.TestsNeed | contribs/lz4/lz4.c:624-669 | no test of the limit on the way asks for more room than the whole planned block takes |
| Lz4Plan.SearchNeeds | contribs/lz4/lz4.c:900-924 | nor does the test behind a match for a given output size, with three bytes to spare |
| Lz4Plan.LiteralPlan | contribs/lz4/lz4.c:586-619 | the block of an input without a repeated byte is literals alone |
| Lz4Plan.BlockSize | contribs/lz4/lz4.c:713-729 | the number of bytes of a planned block |
| Lz4Encoder.CostBound | contribs/lz4/lz4.h:157-157 | a sequence never costs more than its share of n + n/255 |
| Lz4Encoder.EmitSequence | contribs/lz4/lz4.c:643-685 | a verified match extends the block: encoding, meaning, restrictions and size bound |
| Lz4Encoder.CompleteBlock | contribs/lz4/lz4.c:713-732 | with the last literals the block is complete and restricted |
| Lz4Encoder.RoomForMatch | contribs/lz4/lz4.h:157-157 | within the documented bound there is room for a match and the over-written length bytes |
| Lz4Encoder.RoomForLiterals | contribs/lz4/lz4.h:157-157 | and for the 8-byte literal copy |
| Lz4Encoder.EncodeOneMatch | contribs/lz4/lz4.c:643-685 | one match: its common length and exactly when it passes the test of the limit; then equal source bytes over its whole length, scratch bytes at most 3 past the output position, and exactly which bytes lie at and past a limit |
| Lz4Encoder.EncodeLength | contribs/lz4/lz4.c:670-683 | the length completes the sequence; what it stores is the tail for any limit it passes |
| Lz4Encoder.EncodeTurn | contribs/lz4/lz4.c:643-685 | one match of a run with limited output: whatever was stored untested before it kept the limit if it passes the test, and is left if it does not; if it does not, the planned block is longer than the limit |
| Lz4Encoder.MatchFollows | contribs/lz4/lz4.c:690-709 | the test for a match right behind the last one, and its token |
| Lz4Encoder.EncodeMatches | contribs/lz4/lz4.c:643-711 | the loop of matches that follow one another, for every limit: what it leaves at and past the limit is the tail of its last match |
| Lz4Encoder.EncodePending | contribs/lz4/lz4.c:621-641 | from a search hit to the written literals, for every limit |
| Lz4Encoder.EncodeHit | contribs/lz4/lz4.c:621-711 | from a search hit to the last match behind it; the test of the literals is behind the tail so far |
| Lz4Encoder.EncodeSequences | contribs/lz4/lz4.c:586-711 | the main loop leaves an encoding of a restricted prefix and scratch bytes that the last literals will cover; its sequences are the planned ones, and it gives up only when the planned block is longer than the limit; at and past the limit it leaves exactly the tail |
| Lz4Encoder.EqualAccepts | contribs/lz4/lz4.c:592-619 | on equal bytes the first candidate is accepted, whatever the hash |
| Lz4Encoder.EqualGoesToEnd | contribs/lz4/lz4.c:621-665 | and its match goes to the end |
| Lz4Encoder.EqualPlan | contribs/lz4/lz4.c:586-711 | so the block of equal bytes is one literal, one match and five literals |
| Lz4Encoder.FinishBlock | contribs/lz4/lz4.c:713-732 | the last literals: exactly when they fit, and the length of the block; nothing behind it is changed |
| Lz4Encoder.CompressJob | contribs/lz4/lz4.c:586-733 | the result is the length of the planned block if there is no limit or it fits, and 0 otherwise |
| Lz4Encoder.CompressGeneric | contribs/lz4/lz4.c:532-733 | a positive result is the length, at most n + n/255 + 2, of a restricted block for the input after its history, the same block for every limit; 0 exactly for a refused input or a limit below that length; the table stays valid for the next call; with limited output exactly the tail of the last match lies at and past the limit: nothing if the call succeeds, and nothing for an input below 134655 bytes |
| Lz4Limit.PassedLimit | contribs/lz4/lz4.c:667-683 | after the test of the limit, the length of a match and what follows it stay below the limit and the overrun of the input size |
| Lz4Limit.LimitTestExact | contribs/lz4/lz4.c:667-709 | the test keeps all stores up to the next one below every limit if and only if (matchCode + 240) / 255 <= matchCode / 256 + 3, if another match follows at once; without one, if and only if the four-byte stores of the length do |
| Lz4Limit.ShortMatchKeepsLimit | contribs/lz4/lz4.c:667-709 | 134655 is the first match code that is too long |
| Lz4Limit.LeftToken | contribs/lz4/lz4.c:709-709 | the token of a match that follows at once is stored without a test |
| Lz4Limit.LeftOffset | contribs/lz4/lz4.c:643-645 | and so is its offset |
| Lz4Limit.LeftAfterTest | contribs/lz4/lz4.c:667-669 | a passed test shows that everything stored before it kept the limit |
| Lz4Limit.KeepsLeaves | contribs/lz4/lz4.c:667-683 | a tail that keeps the limit leaves what lies there as it was |
| Lz4Limit.ShortInputKeeps | contribs/lz4/lz4.c:667-709 | every tail of an input below 134655 bytes keeps the limit |
| Lz4DestSize.CutFits | contribs/lz4/lz4.c:889-895 | a match too long to describe is cut so that its description ends exactly 6 bytes before the target |
| Lz4DestSize.ChooseLength | contribs/lz4/lz4.c:887-895 | the match code written: the common length, or a shorter one whose description fits |
| Lz4DestSize.EncodeOneMatchTo | contribs/lz4/lz4.c:884-906 | one match, cut if necessary: there is always room for the literals the restrictions still demand; it is the planned one if the planned block fits with three bytes to spare |
| Lz4DestSize.WholeMatch | contribs/lz4/lz4.c:889-895 | then no match is cut |
| Lz4DestSize.LiteralsGo | contribs/lz4/lz4.c:860-882 | nor are literals given up |
| Lz4DestSize.MatchesGo | contribs/lz4/lz4.c:900-908 | nor does the loop end early |
| Lz4DestSize.EncodeMatchesTo | contribs/lz4/lz4.c:884-924 | the loop of matches |
| Lz4DestSize.EncodePendingTo | contribs/lz4/lz4.c:860-882 | literals, or giving up unchanged when no match would fit |
| Lz4DestSize.EncodeSequencesTo | contribs/lz4/lz4.c:826-924 | the main loop; it makes the planned block if that fits with three bytes to spare |
| Lz4DestSize.LastFits | contribs/lz4/lz4.c:926-934 | the shrunk last literals fit; how many bytes they may leave unused; they leave none if and only if `Fills` holds of the room |
| Lz4DestSize.ShortRoomFills | contribs/lz4/lz4.c:926-934 | it does for a room below 15 bytes, where nothing is shrunk |
| Lz4DestSize.FinishTo | contribs/lz4/lz4.c:926-951 | the shrunk last literals complete a restricted block of at most the target size, and exactly that size if and only if the room behind their token fills |
| Lz4DestSize.CompressDestSizeGeneric | contribs/lz4/lz4.c:798-951 | for every source and target: the result is at most the target, nothing behind the target changes, the block stands for exactly the consumed prefix; 0 exactly for the refusals; if the block of the plain compressor fits with three bytes to spare, it is the result and all input is consumed; if input is left over, the target is full if and only if the room behind the last token fills, and at most 1 + (target + 240) / 65025 bytes are unused |
| Lz4Codec.BlockDecodes | contribs/lz4/lz4.c:1206-1343 | any block for some data decodes to it in both modes, the trusting mode consuming exactly its bytes |
| Lz4Codec.EqualSize | contribs/lz4/lz4.c:586-733 | for 14 and more equal bytes the block has 10 + (n - 10 + 240) / 255 bytes |
| Lz4Codec.LiteralSize | contribs/lz4/lz4.c:586-733 | for an input without a repeated byte it has 1 + (n + 240) / 255 + n |
| Lz4Codec.CompressFast | contribs/lz4/lz4.c:736-753 | choice of table and output limit; a supported input succeeds exactly when the size of its block is at most maxOutputSize, always from the documented bound on, with the same block for every limit; nothing at or past maxOutputSize changes if the call succeeds or the input is below 134655 bytes, and exactly the tail does otherwise |
| Lz4Codec.LimitNotKept | contribs/lz4/lz4.c:667-709 | a witness: a million equal bytes with a limit of 3916 change all bytes up to 3928 before the call returns 0 |
| Lz4Codec.RoundTrip | contribs/lz4/lz4.c:774-779 | every supported input comes back from LZ4_decompress_safe with its size as capacity and from LZ4_decompress_fast, which reports the compressed size; both get the compressed bytes and nothing behind them |
| Lz4Codec.CompressDestSize | contribs/lz4/lz4.c:954-966 | the dispatch: plain compression when the target is at least the bound; three bytes more than the block of the plain compressor take all input; the exact condition for a full target |
| Lz4Codec.MatchMeansRepeat | contribs/lz4/lz4.c:616-618 | a block without history that has a match stands for data with a repeated byte |
| Lz4Codec.TargetNotFilled | contribs/lz4/lz4.c:926-934 | a witness: 20 different bytes and a target of 16 give 15 bytes for 14 consumed |
| Lz4Codec.SpareBytesNeeded | contribs/lz4/lz4.c:860-882 | a witness that two bytes more do not: 14 equal bytes make a block of 10, and a target of 12 takes 11 of them |
| Lz4Codec.DestSizeRoundTrip | contribs/lz4/lz4.c:969-985 | for every target of at least 1 the consumed prefix comes back with its length as capacity |
| Lz4Stream.CompressStream.constructor | contribs/lz4/lz4.c:1000-1003 | a reset stream |
| Lz4Stream.CompressStream.RenormDictT | contribs/lz4/lz4.c:1047-1063 | when the table is rescaled, and exactly its entries, the offset and the dictionary afterwards; the end of the dictionary stays in place |
| Lz4Stream.CompressStream.PositionsStay | contribs/lz4/lz4.c:1047-1063 | rescaling keeps every position of the last 64 KB and makes all others the one 64 KB back |
| Lz4Stream.CompressStream.CompressNext | contribs/lz4/lz4.c:1084-1115 | the call in prefix mode or for a first block, and what the stream keeps |
| Lz4Stream.CompressStream.CompressFastContinue | contribs/lz4/lz4.c:1066-1097 | a block in prefix mode refers back to exactly the rescaled dictionary; it is the planned block for the rescaled table if that fits, and there is none otherwise; the stream is then ready for the adjacent block; what is stored at and past the limit |
| Lz4Stream.ExpandAllAfter | contribs/lz4/lz4.c:1087-1097 | sequences that stay within their history mean the same after a longer history |
| Lz4Stream.BlockAfter | contribs/lz4/lz4.c:1087-1097 | a block for some history is a block for any longer history that ends with it |
| Lz4Stream.DecodeStream.DecompressSafeContinue | contribs/lz4/lz4.c:1406-1430 | decoding into adjacent output, with the produced bytes becoming prefix |
| Lz4Stream.CompressAll | contribs/lz4/lz4.c:1066-1097 | a run of calls on adjacent blocks succeeds and leaves one block for each |
| Lz4Stream.DecompressAll | contribs/lz4/lz4.c:1406-1430 | the blocks decoded in order rebuild the stream |
| Lz4Stream.StreamRoundTrip | contribs/lz4/lz4.c:1047-1430 | streaming round trip, rescaling included, for every division into blocks |
| Mempool.Align | include/libinac/memory.h:57-57 | the rounding macro, for every alignment: not below the size, and less than the alignment above it |
| Mempool.AlignIsMultipleIff | include/libinac/memory.h:56-57 | it gives a multiple for every size, as its comment says, if and only if the alignment is a power of two; a size of 1 shows it |
| Mempool.FitsIsExact | src/memory.c:352-353 | the wrapping 64-bit test is exactly "fits between pos and end" |
| Mempool.KeptDisjoint | src/memory.c:296-315 | the blocks that survive a reset are still pairwise disjoint |
| Mempool.AlignedSize | src/memory.c:116-119 | the size of a chunk: at least the minimum, aligned, and no larger than that needs |
| Mempool.SmallPools | src/memory.c:116-119 | the smallest pool has 1024 bytes, one of 1025 has 1040 |
| Mempool.Chunk.constructor | src/memory.c:114-164 | a new chunk of exactly that size, zero-filled unless told otherwise |
| Mempool.Pool.constructor | src/memory.c:114-164 | a new pool satisfies the invariant: chunks sound, live blocks inside their chunks and pairwise disjoint, free space zero |
| Mempool.Pool.Extend | src/memory.c:354-380 | a chunk of exactly the size the source asks for after `current`; what followed it leaves the chain |
| Mempool.Pool.LiveGrows | src/memory.c:340-431 | a block taken between the old and the new bound is disjoint from every live block |
| Mempool.Pool.CleanFrame | src/memory.c:340-431 | shrinking the free space without writing keeps it zero |
| Mempool.Pool.SeekRoom | src/memory.c:350-360 | the jumps to `retry` end at the first chunk with room, or at the last |
| Mempool.Pool.UsedGrows | src/memory.c:317-338 | a block taken from a chunk of the chain raises what Info counts as used by its size |
| Mempool.Pool.Dalloc | src/memory.c:340-386 | a new live block at the front of the first chunk with room from the current one on, with chain and sizes unchanged and its rounded size more used; only if there is none, in a dynamic pool, at the start of a new chunk at the end of the chain; disjoint from the others and zero on return in a clean pool; when it fails |
| Mempool.Pool.Nalloc | src/memory.c:388-431 | the same from the back of the current chunk if it has room, and of a new chunk behind it otherwise |
| Mempool.Pool.Reset | src/memory.c:296-315 | dalloc blocks go, nalloc blocks stay, and the invariant holds |
| Mempool.Pool.Clear | src/memory.c:275-294 | the same, with all memory of the chain zero and the pool clean again |
| Mempool.Pool.Info | src/memory.c:317-338 | the sums over the chain and the number of child chunks |
| Mempool.Pool.Store | src/memory.c:340-431 | a client writing in its own block keeps the invariant and every other byte |
| Mempool.Pool.Resize | src/memory.c:455-465 | ralloc of the last block in place: kept bytes, wiped remainder, nothing else changed, and no byte of another live block |
| Mempool.Pool.MoveBehind | src/memory.c:496-504 | ralloc by copying behind the last block: nothing else changed, and no byte of another live block |
| Mempool.Pool.OthersUntouched | src/memory.c:455-504 | a store inside one block, or in free space, leaves the bytes of all other live blocks |
| Mempool.Pool.DoesNotFit | src/memory.c:466-516 | where the source opens a new chunk, the memory it then hands out reaches behind the free space of the first chunk |
| Mempool.Pool.Ralloc | src/memory.c:433-521 | for blocks of either kind, exactly when each of the three outcomes comes: the block is resized or moved, with the first min(old, new) bytes, the bytes of all other live blocks, the disjointness and the zero free space kept; it fails with nothing changed; or the source hands out memory that is not free |
| Mempool.Pool.RallocAligned | src/memory.c:450-521 | the choice among the branches, after rounding |
| Mempool.RallocMisplaced | src/memory.c:466-490 | a witness: a pool of 1024 bytes, a block of 512, ralloc to 4096 |
| Topology.OrdinalsAgree | contribs/cpu-topology/cpu_topo.c:1227-1348 | package ordinals are equal if and only if package IDs are; core ordinals in a package if and only if core IDs are |
| Topology.TriplesInjective | contribs/cpu-topology/cpu_topo.c:1227-1348 | no two processors share package, core and thread ordinals |
| Topology.TriplesDense | contribs/cpu-topology/cpu_topo.c:1227-1348 | every triple below the counts belongs to a processor |
| Topology.CountsAddUp | contribs/cpu-topology/cpu_topo.c:1227-1348 | the thread counts of all cores add up to the number of processors |
| Topology.PairsGrow | contribs/cpu-topology/cpu_topo.c:1298-1318 | the core count goes up exactly for a (package, core) pair not seen before |
| Topology.OrdinalsStay | contribs/cpu-topology/cpu_topo.c:1262-1345 | ordinals once given never change |
| Topology.SmallPackagesFail | contribs/cpu-topology/cpu_topo.c:1240-1240 | two packages of one processor each are refused: the workspace has rows for IDs per package, not for packages |
| Topology.Find | contribs/cpu-topology/cpu_topo.c:1272-1274 | the linear searches of the loops |
| Topology.Tables.InKnownPackage | contribs/cpu-topology/cpu_topo.c:1274-1318 | a processor of a known package |
| Topology.Tables.AddThread | contribs/cpu-topology/cpu_topo.c:1288-1297 | one more thread on a known core |
| Topology.Tables.AddCore | contribs/cpu-topology/cpu_topo.c:1299-1316 | a new core of a known package |
| Topology.Tables.InNewPackage | contribs/cpu-topology/cpu_topo.c:1321-1345 | the first processor of a package |
| Topology.Tables.Number | contribs/cpu-topology/cpu_topo.c:1262-1345 | one turn of the loop, and exactly when it goes on |
| Topology.Tables.AnalyzeCPUHierarchy | contribs/cpu-topology/cpu_topo.c:1227-1348 | fills ordinals and counts as defined, in all and only the cases where the tables have room, there are at most 2^PkgSelectMaskShift packages, and no processor comes to a package that already has MAX_CORES cores |
| ApicId.BitScanReverse | contribs/cpu-topology/cpu_topo.c:210-220 | the highest bit set |
| ApicId.CreateMask | contribs/cpu-topology/cpu_topo.c:235-255 | for every number of entries: when the shift is defined, and then the narrowest field with room for them, and its mask |
| ApicId.Masks.SetLegacyConstants | contribs/cpu-topology/cpu_topo.c:722-756 | the three masks divide the 32 bits of an ID, for as many threads in a core as thread IDs divided by core IDs, and for all and only the counts with at least as many thread IDs as core IDs in a package |
| ApicId.Decompose | contribs/cpu-topology/cpu_topo.c:1153-1156 | no bit of an ID is lost and none is read twice |
| ApicId.Masks.ParseIds | contribs/cpu-topology/cpu_topo.c:1148-1156 | the fields of an ID put together again give the ID, so different IDs differ in some field |
| Murmur3.PushAbsorbs | src/hash.c:542-554 | a byte pushed into the carry, completing a word or not, despite stale bytes below |
| Murmur3.DoBytes | src/hash.c:542-554 | the byte loop |
| Murmur3.DoBlocks | src/hash.c:558-641 | the block loop is the byte-wise absorption of whole words |
| Murmur3.FillWord | src/hash.c:572-576 | bytes up to the next whole word, if there are that many |
| Murmur3.PackAbsorbed | src/hash.c:558-641 | packing the count into the carry loses nothing that matters |
| Murmur3.Process | src/hash.c:558-641 | from any state that absorbed some data, Process absorbs the piece |
| Murmur3.ResultIsHash | src/hash.c:643-661 | finishing a state that absorbed some data gives MurmurHash3_x86_32 of that data |
| Murmur3.HashAtOnce | src/hash.c:666-671 | one call over the whole input computes the definition |
| Murmur3.HashPieces | src/hash.c:558-661 | however the input is cut, the pieces give the hash of the whole |
| Murmur3.HashOfNothing | src/hash.c:643-671 | the published value for no bytes |
| Murmur3.HashOfAbc | src/hash.c:526-671 | for abc |
| Murmur3.HashOfTest | src/hash.c:526-671 | for test |
| Murmur3.HashOfHello | src/hash.c:526-671 | for hello |
| Murmur3.HashOfAa | src/hash.c:526-671 | for aa, with seed 0x9747b28c |
| Murmur3.HashOfSeeded | src/hash.c:526-671 | for Hello, world! with that seed |
| Murmur3.FmixBack | src/hash.c:643-661 | the finalizer can be undone, so no two states finish in the same hash |
| Murmur3.MixKBack | src/hash.c:532-540 | so can the mixing of a word |
| Murmur3.BlockApart | src/hash.c:532-540 | block steps with one result differ in the state if and only if they differ in the word |
| Murmur3.FourBytesApart | src/hash.c:526-671 | two different words of four bytes never have the same hash |
| Crc32.TableIsDivision | src/hash.c:80-124 | all 256 table entries are the 8-bit division step (section 8 of RFC 1952) |
| Crc32.BitStepSplits | src/hash.c:189-199 | the bits above the lowest only shift while that one is divided |
| Crc32.ByteStepSplits | src/hash.c:189-199 | so the upper bytes of the register only shift while its low byte is divided |
| Crc32.TableStep | src/hash.c:189-199 | the table step of the loop is the division step |
| Crc32.HashCrc32 | src/hash.c:189-199 | the table-driven loop computes bit-by-bit reflected division, for every starting value |
| Crc32.CrcAppend | src/hash.c:189-199 | the CRC of a concatenation continues from the CRC of its first part |
| Crc32.CheckValue | src/hash.c:189-199 | the check value of the CRC-32: that of 123456789 |
| List.MergedSame | src/list.c:43-65 | a merge keeps every node exactly once |
| List.MergedInOrder | src/list.c:43-65 | a merge of ordered chains is ordered, for every total preorder |
| List.SortedSame | src/list.c:67-77 | sorting keeps every node exactly once |
| List.SortedInOrder | src/list.c:67-77 | sorting orders, for every total preorder |
| List.TiesReversed | src/list.c:43-77 | nodes that all compare equal come out in the opposite order, so the sort is not stable |
| List.Split | src/list.c:29-41 | cuts the chain in two, the first half not the shorter |
| List.Merge | src/list.c:43-65 | the recursive relinking gives the merged chain with `prev` the inverse of `next` |
| List.MergeSort | src/list.c:67-77 | in place: a null-terminated chain of the same nodes, linked both ways |
| List.NodeList.InsertTail | src/list.c:273-291 | appends, keeping both link directions and head.prev |
| List.NodeList.Remove | src/list.c:293-312 | takes out one node, keeping both link directions and head.prev |
| List.NodeList.Concat | src/list.c:352-382 | appends another list and empties it |
| List.NodeList.Sort | src/list.c:423-431 | the same nodes, each once, in order, linked both ways; fit for the other operations if and only if at most one node |
| HashTable.LookOther | src/hashtable.c:484-503 | writing a removed slot or the slot of another key does not change what is found for a key |
| HashTable.WrittenValid | src/hashtable.c:484-503 | keys stay distinct in their bucket when a slot is written, and the written key is found |
| HashTable.WrittenSlots | src/hashtable.c:484-503 | writing a slot takes it from the key it held and from no other |
| HashTable.ScanLive | src/hashtable.c:510-559 | the scan of get and remove |
| HashTable.ScanForSet | src/hashtable.c:484-497 | the scan of set: the slot of the key, or the last removed slot, or the next one |
| HashTable.Grown | src/hashtable.c:474-482 | growth keeps every entry |
| HashTable.HashTable.constructor | src/hashtable.c:206-416 | an empty table |
| HashTable.HashTable.SelectBucket | src/hashtable.c:88-102 | the bucket of a key |
| HashTable.HashTable.WriteSlot | src/hashtable.c:498-559 | one slot written: the map, the counter and the slots of all keys |
| HashTable.HashTable.Set | src/hashtable.c:461-508 | the table is updated as a finite map, through tombstone reuse and growth; the counter moves exactly for a key without a slot, and misses exactly a removed key whose slot still holds it; which removed key of the bucket, if any, loses its slot, and that all others keep theirs |
| HashTable.HashTable.Get | src/hashtable.c:510-532 | found if and only if the key is in the map, with its value; no slot changes |
| HashTable.HashTable.Remove | src/hashtable.c:534-559 | removes the key from the map and returns its value; all keys keep their slots, the removed one too |
| HashTable.HashTable.Clear | src/hashtable.c:429-442 | the empty map, no key in a slot, and an exact counter again |
| HashTable.HashTable.Foreach | src/hashtable.c:561-585 | hands over entries, each at most once, up to the first the callback refuses, and every entry if it refuses none |
| HashTable.HashTable.PassSlot | src/hashtable.c:642-650 | a cursor over a live slot passes one entry it has not passed before |
| HashTable.Iterator.Reset | src/hashtable.c:658-665 | nothing passed |
| HashTable.Iterator.NextInBucket | src/hashtable.c:643-650 | the inner loop: the next entry of the bucket, if there is one |
| HashTable.Iterator.Next | src/hashtable.c:633-656 | yields an entry not yielded before, or the end when all have been; detects a changed counter |
| HashTable.Recount | src/hashtable.c:461-559 | a witness: set, remove and set one key, and a table with one entry counts 0 |
| HashTable.CountedAgain | src/hashtable.c:461-559 | when another key takes over the slot in between, the key is counted again |
| Cron.DigitsEndAt | src/cron.c:125-133 | where a number in the text ends |
| Cron.ParseInt | src/cron.c:125-133 | strtol in base 10 on any text: white space, sign, digits, clamping, and the conversion to int |
| Cron.CounterStep | src/cron.c:180-184 | the countdown fills exactly every step-th place |
| Cron.NextPlace | src/cron.c:182-184 | the place moves on cyclically |
| Cron.RemIndex | src/cron.c:180-184 | the remainder of C is an index unless the number is negative and no multiple of the size |
| Cron.FillRange | src/cron.c:174-195 | for every start: the first index lies below the array if and only if the remainder is negative; otherwise the failsafe fires if and only if the end is not a place of the array, and else exactly the stepped cyclic range is filled |
| Cron.FinishItem | src/cron.c:164-195 | step and filling, with exactly these three outcomes |
| Cron.FindName | src/cron.c:134-141 | the loop over the names finds the first that the text begins with |
| Cron.NameFound | src/cron.c:52-100 | in lists like these two a name is found, whatever follows it |
| Cron.ParseTerm | src/cron.c:116-158 | a star, a number or a name, first or second of a range, on any text |
| Cron.ParseField | src/cron.c:105-214 | on any text: how the parser ends, as the scan says, and a field that is accepted adds exactly the ranges the scan names |
| Cron.ScanItem | src/cron.c:115-203 | any item of the right shape is filled from and to what its numbers and names stand for, as they are converted |
| Cron.ScanField | src/cron.c:115-213 | a field of the right shape, whatever its numbers and names are: the first item that cannot be filled decides, and a field without one is accepted |
| Cron.StartsBelowIff | src/cron.c:126-133 | an item starts below the array if and only if its number, as converted, is negative and no multiple of the size; for a range, the second number, when the first is negative too |
| Cron.VerdictIff | src/cron.c:164-195 | the parser indexes below its array if and only if the first item it cannot fill starts there, and refuses the field if and only if that item does not |
| Cron.MonthZero | src/cron.c:126-133 | a witness: a month of 0 |
| Cron.LoneItem | src/cron.c:105-214 | a number or name alone: exactly when it is accepted, and when it takes the parser below its array |
| Cron.MinuteWraps | src/cron.c:126-133 | a witness: a minute of 4294967295 |
| Cron.MultipleRefused | src/cron.c:126-195 | a minute of 4294967236, converted to -60, is refused and not outside |
| Cron.NameAlone | src/cron.c:134-151 | a name alone is accepted if and only if its index is a place of the array |
| Cron.SundayRefused | src/cron.c:52-75 | a witness: Sun, listed at index 7, is refused |
| Cron.OpenRange | src/cron.c:156-162 | a range without its second number is accepted and fills nothing |
| Cron.TrailingComma | src/cron.c:197-203 | a comma may end a field |
| Cron.ScanGoodField | src/cron.c:105-214 | a field of in-range numbers and names stands for the union of the stepped cyclic ranges, and the rest of the text follows |
| Cron.Timetable.ParseFields | src/cron.c:294-300 | the five fields in turn, on any text |
| Cron.Timetable.ParsePattern | src/cron.c:286-327 | on any text: the outcome, and the timetable of an accepted one, days and weekdays adjusted |
| Cron.PatternMeans | src/cron.c:286-327 | the text of a pattern of in-range items is accepted, and its ranges admit a time if and only if its items do |
| Cron.Timetable.Passes | src/cron.c:241-243 | a tick passes the test if and only if the ranges of the timetable admit it |
| Cron.PatternPasses | src/cron.c:241-327 | from the text to the tick: it passes if and only if the pattern admits it |
| Cron.AllRealDays | src/cron.c:302-326 | a days field that selects exactly 1 to 31 does not count as complete, since the table has a day 0; an incomplete list of weekdays then decides nothing |
| Base64.EncodeLength | src/util.c:34-49 | the length of the text, its NUL and two characters per line |
| Base64.EncodeChunk | src/util.c:51-135 | writes exactly the encoding of RFC 4648 and a NUL if they fit, and reports a small buffer otherwise; no store outside |
| Base64.Encode | src/util.c:60-127 | four characters for every three bytes begun |
| Base64.CodeOfLetter | src/util.c:19-31 | the decoding table inverts the alphabet |
| Base64.Alphabet | src/util.c:53-53 | the 64 letters are the string of the source |
| Base64.DecodeInvertsEncode | src/util.c:137-195 | decoding the encoding gives the bytes back |
| Base64.ThreeBytes | src/util.c:163-171 | a full group gives its three bytes |
| Base64.DecodeChunk | src/util.c:137-195 | which outcome any text has, in what order the errors come, and on success exactly the bytes of its letters |
| Base64.RoundTrip | src/util.c:34-195 | encoding into a buffer of the computed size and decoding the characters returns the bytes and their number |

## Left out

- Lz4Encoder.CompressGeneric: acceleration is 1; the table of pointers, external dictionaries and `LZ4_loadDict` are not modelled; how well an input is compressed is not stated, beyond equal bytes and inputs without a repeated byte.
- Lz4Matcher.HashPosition: a 64-bit little-endian machine; the 16-bit table is an array of its own, zero at the start, instead of a view of the stream state.
- Lz4Matcher.CommonBytes: the bit scans of the different compilers are taken as the index of the first differing byte.
- Lz4Stream.CompressStream.CompressFastContinue: the branch for an input that overlaps the dictionary and the external dictionary mode are left out; the input must follow the previous one.
- Lz4Stream.DecodeStream.DecompressSafeContinue: output that does not follow the previous output (external dictionary) is left out.
- Lz4Decoder.DecompressGeneric: partial decoding is left out, and pointers are offsets that do not wrap around; of a call that reads behind its input nothing is said beyond `Lz4InputEnd`.
- Lz4Decoder.DecompressFast: input that makes the trusting decoder leave its buffers is excluded, as its documentation does.
- Mempool.Pool.Ralloc: in a dynamic pool, where the block does not fit and the source uses the wrong chunk, the state afterwards is not modelled; shared memory, failing allocation, `ina_mempool_shrink` and `ina_mempool_merge` are left out.
- Mempool.Pool.Dalloc: requests are below 2^63 - 65536 after rounding; larger ones fail in the allocator of the system.
- Mempool.Pool.Extend: chunks that nalloc cuts off the chain are kept as owned, so that their blocks stay live; the source has no pointer to them any more.
- ApicId.Masks.SetLegacyConstants: the CPUID queries are parameters, and masks after a failed createMask are not modelled.
- Topology.Tables.AnalyzeCPUHierarchy: the product that sizes the workspace must be below 2^32; counts do not wrap around; `AnalyzeEachCHierarchy`, which numbers caches in the same way, is left out.
- Murmur3.Process: the variants for aligned and big-endian machines and calls with more than 2^31 - 1 bytes are left out.
- The other hashes of `src/hash.c` (spooky, superfast, yoshimitsu, falkhash, lookup3 and so on): no specification beyond the code.
- List.NodeList.Concat: the merging of the two memory pools, `ina_list_insert_head`, `ina_list_resize` and the recycling of nodes are left out; data are compared through an integer callback.
- HashTable.HashTable.Set: keys have a fixed width and a first 32-bit word that is not zero, data are not null, and the counter does not wrap around; string keys, statistics events and the calls that free data are left out.
- Cron.ParseField: after an index below the array nothing is said of memory; a number that becomes the least int is taken without wrap-around when the offset or 1 is subtracted, which is undefined in C.
- Cron.Timetable.Passes: the broken-down time is given; `localtime`, the scan over minutes, starting processes and `ina_cron_make_pattern` are left out.
- Base64.EncodeLength: sizes do not wrap around, so input lengths are below 2^62.
- Input and output, logging, files, network, timers, processes and configuration: foreign calls or presentation.
- `src/ullc.c`, `src/ipc.c`: their protocols rest on assumptions outside the code.
- `src/string.c`: no total contract for its wildcard and tokenizer functions.
