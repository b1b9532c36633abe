# csnappy, verified

A Dafny model of the csnappy codec and proofs of what it is for: what is compressed comes back. It
covers the x86-64 form of the C compressor and of the C decoder, and the second decoder, in Python,
that writes through a paged ring buffer. `dafny verify dfyconfig.toml` checks everything.

## What is modelled

| File | Contents |
|---|---|
| `Format.dfy` | The stream format as a short pure meaning: elements, a parser from bytes, an evaluator in which an overlapping copy is byte by byte, and the encoder's element syntax. Sections 2.1 and 2.2 of Google's Snappy compressed format description. |
| `Bytes.dfy`, `BitScan.dfy` | Little-endian words, masked loads, the eight-byte copy, the portable search for the lowest set bit. |
| `Varint.dfy` | The length header (section 1 of the format description). |
| `MatchLength.dfy` | Both versions of the match finder. |
| `Emit.dfy`, `CompressSpec.dfy`, `GreedySpec.dfy`, `Compress.dfy` | Literals and copies written into the output buffer, the hash table, the scan, the block compressor for an arbitrary hash function, the whole-buffer compressor. `GreedySpec` says which elements they choose. |
| `WireFormat.dfy` | The bytes of headers and elements in numbers, independent of the functions that the other modules use for them. |
| `TagTable.dfy`, `Writer.dfy`, `DecodeSpec.dfy`, `Decompress.dfy` | The tag table, the overshooting array writer, and the optimised decoder with its scratch tail. `DecodeSpec` says what that decoder does on every byte string. |
| `PagedOutput.dfy`, `PagedDecompress.dfy` | The nine-page output buffer and the decoder that drives it. |
| `CutStreams.dfy` | What either decoder makes of a last element that is cut short, byte by byte. |
| `RoundTrip.dfy` | Compression followed by either decoder. |

The results build on each other as follows.

* **Compressor.** Each step of `MainLoop` keeps `Emitted`: the bytes written so far are the code of
  elements that evaluate, on their own, to exactly the input up to the last emission. It also keeps a
  budget (`Paid`, `Owing`: a literal header of more than one byte is paid for by the copy after it),
  from which every store, surplus bytes of the fast literal included, stays within n + n/65 + 3 bytes
  per block and within the announced bound for the whole buffer. The hash function is a parameter.
  Which elements are emitted is a recursive function of the block and the hash (`Fragment`), and of the
  whole input and the table size (`CompressedElements`). These functions know no table, only the list of
  positions filed so far: a candidate is the latest filed position with the same hash value (`Latest`).
  What the working memory held before makes no difference to any byte written.
* **Flat decoder.** `Decode` is the result on every byte string, as a function of the stream, the
  contents of the scratch buffer, the output so far and the capacity. The loop keeps `OnCourse`: decoding
  the rest from here gives the outcome of the whole. The scratch buffer is carried along (`Fill`), because
  an element that the end of the input cuts short is completed by what it still holds. On streams of
  complete elements the outcome is that of the reference evaluator `Run` (`CompleteStreams`), which
  succeeds exactly when all offsets are valid and the output fits, except for the refusal of very long
  streams described below.
* **Paged decoder.** `OutputBuffer.Valid` says that the ring holds the last 36864 bytes of one flat
  string. The oldest of them are in the part of the top page that is not overwritten yet, which is
  what makes index -1 of the page list work after a rotation in the middle of a copy. Cells that were
  never written are zeros, which fixes what a repeat from distance zero reads.

## Where the code does not do what one would expect

Each of these is modelled as the code has it, with the exact condition.

* A copy tag that the end of the input cuts short is completed from the scratch buffer: from earlier bytes
  of the stream that are still there, and from uninitialised memory where the stream never reached. A
  literal length field of all ones wraps around to an empty literal. For every byte string and every
  contents of the scratch buffer, the flat decoder accepts in a given room exactly when `MayAccept` holds
  and the output, of length `OutWidth`, fits (`AcceptanceIsExact`). `AcceptedInRoom` says when it does so
  for some contents of an uninitialised buffer, and `FalseAcceptance` for some 32-bit capacity; the
  format calls for the stricter `WellFormed`. `CutCopyIsAccepted` and `HugeLiteralIsAccepted` are
  streams in between; `StaleByteDecides` has one whose acceptance depends on a byte of its own that is
  still in the scratch buffer.
* A literal whose length is 2^31 or more and that the source cuts short passes the signed comparison. If
  no offset before it is invalid and its length fits the room, the decoder copies bytes from behind the
  source: `OverReadIsExact` is that condition for every stream, `OverReadHappens` a source of five bytes,
  and `NoOverRead` says that capacities below 2^31, or complete elements, are safe. There `Decode` is
  `OverRead`, and `DecompressNoHeader` and `Decompress` are specified for all other calls.
* The number of bytes behind a length field is kept in a signed 32-bit variable. In a source of more than
  2^31 bytes it can be negative, and then a literal of fewer bytes is refused (`Refused`). For complete elements this
  can only happen at the first one, and `CompleteStreams` is exact for all sources of up to 2^32 - 1
  bytes. A compressed stream is therefore not decompressed when it is that long: `CompressThenDecompress`
  has the exact condition.
* The paged decoder refuses a cut copy, but it does not notice that a literal is cut short in its data.
  `IncompleteBodies` says that these are the only incomplete bodies it takes, subject to the length
  announced; `CutLiteralIsAccepted` is one.
* `repeat_chunk` refuses a copy that reaches further back than the pages do, which is sooner than the
  format would: with n bytes written, beyond n below 36864 and beyond 32768 + n % 4096 from there on
  (`RefusalInNumbers`). Outputs of up to 36863 bytes, and offsets of up to 32768, are never affected
  (`SmallOutputs`, `WindowIs32K`).
* `repeat_chunk` does not refuse distance zero. It repeats zeros into the first nine pages and the bytes of
  36864 places before from then on (`ZeroDistanceEarly`, `ZeroDistanceLate`). So the paged decoder accepts
  bodies with zero offsets, which the format and the flat decoder refuse: on complete elements its
  output is the evaluated one exactly when there is no zero offset (`PagedMeaningIsEval`).
  `ZeroOffsetIsAccepted` and `DecodersDisagree` are about one such body.
* The flat decoder keeps 32 bits of the length announced, the paged one all of them. `StreamsAgree` compares
  them on whole streams; `HeaderDividesDecoders` has a header for 2^32 + 1 bytes that is one byte to the
  first and refused by the second.
* `csnappy_max_compressed_length` wraps around above 3681400511 bytes (`MaxCompressedLengthWraps`).
* `flush` of an output buffer to which nothing was written emits a page of 4096 zeros (`Flush`), so the
  paged decoder returns that page for the empty input (`CompressThenPagedDecompress`).
* `csnappy_decompress` does not compare the length of its output with the header: a complete stream is
  accepted exactly when it evaluates, its total width is at most the length announced and it is not
  refused for its own length, and the output has the length announced exactly when the two are equal (`AcceptedLength`).
  `ShortOutputIsAccepted` has one byte of output where five are announced.
* The debug checks of `csnappy_compress_fragment` and `csnappy.h` allow table sizes of 2^9 to 2^15
  bytes, while the macro in `csnappy.h` is 2^16. The code works for 2^9 to 2^16, which is what is proved.

## Conventions

Bytes and words are mathematical integers in their range. A shift, mask, `or` of disjoint bits or cast
is written as a quotient, remainder or sum, and every wrap-around that can happen is an explicit
remainder. An address is an index. A buffer that the code only reads is a sequence, one that it writes is
an array. Debug checks of the C code are assertions, preconditions or invariants. The exceptions of the
Python code are a `false` or `None` result. The contents of uninitialised memory are a parameter. Loop
bodies and branches of long C functions are methods of their own, named in the table. The conversion of a
pointer difference to `int` keeps its low 32 bits.

## Model

| member | source | states |
|---|---|---|
| Format.CopyIsPeriodic | csnappy_decompress.c:188-206 | In the output of an overlapped copy every new byte equals the one `offset` places before it. |
| Format.CopyIsUnique | csnappy_decompress.c:188-206 | The overlapped copy is the only extension of the history with that property. |
| Format.CopyInTwoPieces | csnappy_compress.c:395-415 | A copy of a + b bytes is a copy of a bytes followed by a copy of b bytes at the same offset, for overlapping copies too. |
| Format.EvalConcat | csnappy_decompress.c:345-382 | Evaluating a list of elements and then another is evaluating the two together, failures included. |
| Format.EvalIsLocal | csnappy_compress.c:75-86 | Elements that evaluate on their own produce the same bytes after any prior output. |
| Format.LiteralRoundTrip | csnappy_compress.c:332-371 | Parsing the code of a literal of 1 to 2^32 bytes, followed by any bytes, gives that literal and its exact size. |
| Format.CopyRoundTrip | csnappy_compress.c:373-393 | Parsing the code of a copy of 4 to 64 bytes with a 16-bit offset, followed by any bytes, gives that copy and its exact size. |
| Format.ParseEncode | csnappy_compress.c:332-393 | Parsing the code of any list of encodable elements gives that list back. |
| Bytes.UnalignedCopy64 | csnappy_internal.h:95-120 | The eight bytes at the destination become the old eight bytes at the source, overlap or not; nothing else changes. |
| Bytes.MaskedLoad | csnappy_internal.h:134-141 | The masked four-byte load is the value of the n bytes at p, whatever follows them. |
| Bytes.SameWord | csnappy_compress.c:267-269 | Two loads are equal exactly when the bytes they read are. |
| BitScan.TrailingZerosMeaning | csnappy_internal_userspace.h:538-551 | The number is an odd multiple of two to the power of its trailing zero count. |
| BitScan.ShiftLeft32Zeros | csnappy_internal_userspace.h:543-547 | A 32-bit left shift is zero exactly when it pushes the lowest set bit off the top, and otherwise moves it by the shift. |
| BitScan.FindLSBSetNonZero | csnappy_internal_userspace.h:538-551 | The portable binary search returns the number of trailing zero bits of any non-zero 32-bit word. |
| BitScan.FindLSBSetNonZero64 | csnappy_internal_userspace.h:554-563 | The same for any non-zero 64-bit word. |
| BitScan.FirstDifferingByte | csnappy_compress.c:279-283 | The trailing zeros of the exclusive or of two different words, divided by eight, are the index of the first byte in which they differ. |
| MatchLength.MatchLengthIsLargest | csnappy_compress.c:240-247 | No agreement within the two runs is longer than the match length. |
| MatchLength.FindMatchLength | csnappy_compress.c:252-295 | The 64-bit search returns the match length of two runs, and reads neither of them at or beyond its end, which is the limit for one and the corresponding place for the other. |
| MatchLength.FindMatchLength32 | csnappy_compress.c:297-328 | The 32-bit search returns the match length as well, within the same limits. |
| Varint.HeaderRoundTrip | csnappy_compress.c:46-73 | Reading a header that was written, followed by any bytes, gives the number back and consumes exactly the header. |
| Varint.HeaderOfWord | csnappy_compress.c:46-73 | The header of a 32-bit number has one to five bytes. |
| Varint.EncodeVarint32 | csnappy_compress.c:46-73 | The five unrolled cases write the base-128 header of the number, and nothing after it. |
| Varint.GetUncompressedLength | csnappy_decompress.c:45-71 | A header of one to five bytes yields its size and its value modulo 2^32; a header that is cut short or longer is refused. |
| WireFormat.HeaderIsRead | csnappy_decompress.c:45-71 | A header ends with its first byte below 128; its bytes hold seven bits each, the lowest first. |
| WireFormat.NoHeaderIsRead | csnappy_decompress.c:45-71 | There is no header when all bytes that may belong to it have the top bit set. |
| WireFormat.HeaderIsWritten | csnappy_compress.c:46-73 | The one to five bytes of the header of a 32-bit number, in numbers. |
| Emit.EmitLiteral | csnappy_compress.c:332-371 | The bytes appended are the code of the literal; the fast path stores at most the tag and sixteen bytes, and no other path stores a surplus. |
| Emit.EmitLongHeader | csnappy_compress.c:355-368 | The loop writes the length field least significant byte first and then the tag that announces its size, which is 1 to 4 bytes. |
| Emit.EmitCopyLessThan64 | csnappy_compress.c:373-393 | The bytes appended are the code of the copy in its shorter possible form. |
| Emit.SplitCopyPieces | csnappy_compress.c:395-415 | The pieces of a long copy are encodable (4 to 64 bytes), keep its offset, and their code is at least one byte shorter than the copy. |
| Emit.SplitCopyWidth | csnappy_compress.c:395-415 | The lengths of the pieces add up to the length of the copy. |
| Emit.SplitCopyMeaning | csnappy_compress.c:395-415 | The pieces evaluated in order are one overlapped copy of the whole length, after any history that the offset reaches into. |
| WireFormat.SplitCopyForm | csnappy_compress.c:395-415 | The pieces are copies of 64 bytes, as many as leave four bytes or more, and then one copy, or one of 60 and one of what is left when that is more than 64. |
| WireFormat.CopyIsWritten | csnappy_compress.c:373-393 | The two or three bytes of a copy, in numbers. |
| WireFormat.LiteralIsWritten | csnappy_compress.c:332-371 | The bytes of a literal of up to 2^24 bytes, in numbers: the shortest header that can hold its length. |
| WireFormat.ShortLiteralIsRead | csnappy_decompress.c:90-107 | A tag of type 0 below 60 holds the length of the literal. |
| WireFormat.LongLiteralIsRead | csnappy_decompress.c:90-107 | One from 60 on has the length, less one, in one to four bytes after it, minimal or not. |
| WireFormat.OneByteCopyIsRead | csnappy_decompress.c:110-114 | A tag of type 1 holds a length of 4 to 11 and the upper bits of an 11-bit offset. |
| WireFormat.TwoByteCopyIsRead | csnappy_decompress.c:115-119 | One of type 2 holds a length of 1 to 64 and is followed by a 16-bit offset. |
| WireFormat.FourByteCopyIsRead | csnappy_decompress.c:120-127 | One of type 3 is followed by a 32-bit offset. |
| Emit.EmitCopy | csnappy_compress.c:395-415 | The bytes appended are the code of those pieces; nothing is stored after them. |
| CompressSpec.EmittedLiteral | csnappy_compress.c:554-560 | Appending the code of a literal extends the data that the code means by that literal. |
| CompressSpec.EmittedCopy | csnappy_compress.c:574-584 | Appending the code of a split copy extends the data that the code means by that copy. |
| CompressSpec.MatchIsCopy | csnappy_compress.c:575-581 | A match between a candidate and the current position is exactly an overlapped copy of the input so far, also when the two overlap. |
| CompressSpec.LiteralHeaderCost | csnappy_compress.c:335-368 | A literal of a block costs one byte of header up to 60 bytes, two up to 256 and three beyond. |
| CompressSpec.LiteralBudget | csnappy_compress.c:332-371 | A literal leaves the budget at most one copy in debt and stays within n + n/65 + 3 bytes. |
| CompressSpec.CopyBudget | csnappy_compress.c:395-415 | A copy of at least four bytes pays that debt. |
| CompressSpec.FastLiteralBudget | csnappy_compress.c:339-353 | The surplus of a fast literal stays within the same bound, because sixteen input bytes follow the last emission. |
| CompressSpec.HashFitsTable | csnappy_compress.c:228-236 | The multiplicative hash with the shift for a table of 2^9 to 2^16 bytes addresses an entry of that table. |
| CompressSpec.HashValue | csnappy_compress.c:228-232 | The hash value is the low 32 bits of the word times 506832829, divided by two to the power of the shift. |
| CompressSpec.EveryEntryIsReached | csnappy_compress.c:228-236 | Every entry of the table is the hash value of some 32-bit word. |
| CompressSpec.LatestIsLast | csnappy_compress.c:546-550 | The position filed under a hash value is that of the last word with this value, and zero without one. |
| CompressSpec.LatestProbe | csnappy_compress.c:535-552 | After some probes of a scan it is the position of the last probe with this hash value, and without one it is what it was before the scan. |
| CompressSpec.WordAtOffset | csnappy_compress.c:418-449 | Shifting an eight-byte load by up to four bytes gives the four-byte load at that offset. |
| CompressSpec.ScanIsQuadratic | csnappy_compress.c:522-552 | After 32 m unsuccessful probes the scan has moved by exactly 16 m (m + 1) bytes. |
| CompressSpec.ProbesAreRootOfDistance | csnappy_compress.c:522-531 | The square of the number of probes is at most 64 times the distance scanned. |
| Compress.FileUnder | csnappy_compress.c:546-550 | One entry takes the position, the others stay, and the table stands for the filed positions and this one. |
| GreedySpec.LongestIsCounted | csnappy_compress.c:240-247 | The longest match at two positions has exactly the length counted byte by byte. |
| GreedySpec.ScanGoesOn | csnappy_compress.c:535-552 | A scan ends without a hit when the probe after this one would be less than 15 bytes from the end, otherwise with this probe when it hits, and otherwise goes on. |
| GreedySpec.LookTaken | csnappy_compress.c:585-598 | After a match with 15 bytes or more to go, a further match or a scan from the next position follows, depending on the word at the candidate. |
| GreedySpec.FragmentStarts | csnappy_compress.c:498-503 | A block of less than 15 bytes is one literal; in others the scan starts at position one. |
| Compress.FindCandidate | csnappy_compress.c:535-552 | The probe that succeeds is the first, at the accelerated positions, whose candidate has the same word; otherwise the scan ends at the first position after which the next one is less than 15 bytes from the end. The candidate is the position of the last earlier probe with the same hash value, and the old table entry when there is none. The table then stands for the positions filed before and those of the probes. |
| Compress.EmitPending | csnappy_compress.c:554-560 | The bytes since the last emission become exactly one literal; the code then means the input up to here, within the budget. |
| Compress.EmitMatch | csnappy_compress.c:574-584 | The longest match at the position becomes copies; the code then means the input up to its end, within the budget. |
| Compress.LookAgain | csnappy_compress.c:587-596 | The entries of the last two positions are stored, in order, and no others; the candidate is the first of the two when their hash values agree and otherwise the old entry; another copy follows exactly when it has the same word; the next hash is that of the word one further. |
| Compress.EmitMatches | csnappy_compress.c:574-598 | A run of copies keeps the meaning, the budget and what the table stands for, and ends either with at most 15 bytes to go or one byte before the next scan. The elements are those of the specification. |
| Compress.MainLoop | csnappy_compress.c:498-598 | Whenever the loop stops, the code means exactly the input up to the last emission, and with a literal for the rest the elements are those of the specification; the loop terminates. |
| Compress.CompressFragment | csnappy_compress.c:469-606 | For any hash function into the table and any previous table contents, the bytes appended are the code of elements that evaluate on their own to the whole block and that are a function of the block and the hash; a block of less than 15 bytes is one literal; the code has at most n + n/65 + 3 bytes, and all stores are within that. |
| Compress.ChooseTableSize | csnappy_compress.c:638-646 | A block of 32768 bytes uses the whole table; a shorter one the smallest size from 2^9 up that has an entry for each byte, or else the whole table. |
| Compress.BlocksAreIndependent | csnappy_compress.c:75-86 | The code of a block appended to the code of any data means the data followed by the block. |
| Compress.BlockBudget | csnappy_compress.c:612-616 | Every block, surplus stores included, ends within 32 + n + n/6 bytes of the start of the output. |
| Compress.MaxCompressedLengthWraps | csnappy_compress.c:612-616 | The announced bound is 32 + n + n/6 exactly for n up to 3681400511, and is less than n beyond. |
| Compress.Compress | csnappy_compress.c:621-656 | The result is the length header and the code of elements that evaluate to the input. They come in groups, one for each 32768 bytes begun, and each group evaluates on its own to its 32768 bytes of the input or the rest: no copy reaches into another block. Nothing is stored outside the announced bound, and the size is at most 5 + n + n/65 + 3 per block. Which elements, and so which bytes, is a function of the input and the table size: the previous contents of the working memory have no influence. |
| TagTable.TableIsFormat | csnappy_decompress.c:152-185 | For each of the 192 copy tags the table entry gives the number of extra bytes, the length and the part of the offset that the format gives, and the full offset fits 32 bits. |
| Writer.IncrementalCopy | csnappy_decompress.c:200-206 | The byte-by-byte loop is the overlapped copy. |
| Writer.CopyEight | csnappy_decompress.c:243-253 | An eight-byte copy from a multiple of the offset back extends the repeating pattern by as many bytes as lie between source and destination. |
| Writer.IncrementalCopyFastPath | csnappy_decompress.c:208-254 | For every offset and length the first len bytes are those of the overlapped copy, and nothing is stored more than ten bytes after them. |
| Writer.CopySixteen | csnappy_decompress.c:304-307 | Two eight-byte copies at an offset of at least eight are the overlapped copy of up to sixteen bytes. |
| Writer.SnappyArrayWriter.AppendFastPath | csnappy_decompress.c:264-280 | The literal is appended exactly when it fits, and nothing is stored at or beyond the limit. |
| Writer.SnappyArrayWriter.Append | csnappy_decompress.c:282-293 | The same for a literal of any length. |
| Writer.SnappyArrayWriter.AppendFromSelf | csnappy_decompress.c:295-317 | Offsets of zero or before the start are malformed, otherwise a copy that does not fit is an overrun, otherwise the overlapped copy is appended; nothing is stored at or beyond the limit. |
| DecodeSpec.RunSucceeds | csnappy_decompress.c:77-137 | The reference decoder succeeds with an output exactly when all offsets are valid, that is the evaluated output, and it fits. |
| DecodeSpec.RunFails | csnappy_decompress.c:127-132 | When it fails, the elements before some element succeed and that one decides: malformed when its offset is invalid, overrun when the offset is valid and it does not fit. |
| DecodeSpec.RunInNumbers | csnappy_decompress.c:77-137 | Without an evaluator of limited capacity: success is that the elements evaluate and their total width fits; malformed is that some element behind ones that evaluate and fit has an invalid offset; overrun that it has a valid one and does not fit. |
| DecodeSpec.CompleteStreams | csnappy_decompress.c:319-387 | On a source of up to 2^32 - 1 bytes that consists of complete elements the outcome is the reference outcome, whatever the scratch buffer holds, unless its first literal is refused for what is behind it. |
| DecodeSpec.CompleteElements | csnappy_decompress.c:344-382 | On complete elements after any output the outcome is the reference outcome, as long as no count of bytes turns negative. |
| DecodeSpec.DecodeFilled | csnappy_decompress.c:334-342 | Moving the tail of the stream to the scratch buffer does not change the outcome of the rest. |
| DecodeSpec.AcceptedLength | csnappy_decompress.c:394-411 | A complete stream is accepted exactly when it is not refused, it evaluates and its total width is at most the length announced; the output then has that width, so that it has the length announced exactly when the two are equal. |
| DecodeSpec.LeastOffsetIsLeast | csnappy_decompress.c:346-357 | No choice of the missing bytes of a cut copy makes its offset non-zero and smaller than the one computed from the bytes present. |
| DecodeSpec.LeastOffsetIsReached | csnappy_decompress.c:346-357 | A free choice of the missing bytes reaches that offset. |
| DecodeSpec.CompletedPasses | csnappy_decompress.c:346-357 | A copy with a valid offset, some of whose bytes are the unknown ones at the end of the scratch buffer, passes the test on its known bytes. |
| DecodeSpec.PassingIsCompleted | csnappy_decompress.c:346-357 | A copy that passes it has a valid offset for some contents of the scratch buffer that agree with the known bytes. |
| DecodeSpec.FalseAcceptance | csnappy_decompress.c:346-379 | For every byte string that the code can be given, and everything that may be known of the scratch buffer: some contents and some 32-bit capacity lead to acceptance exactly if the one condition holds, in which stale bytes of the stream count as known, and the output length fits 32 bits. The string is a stream of complete elements with valid offsets exactly if the other condition holds, which implies the first unless the first literal is refused. |
| DecodeSpec.AcceptanceIsExact | csnappy_decompress.c:346-379 | For every byte string, scratch contents, previous output and capacity: the decoder accepts exactly if a test on tags, offsets and known bytes is passed and the output length, computed from the tags, fits; the output then has that length. |
| DecodeSpec.LessKnown | csnappy_decompress.c:334-357 | A stream that passes the test with given scratch contents passes it when only a part of them is known. |
| DecodeSpec.MoreKnown | csnappy_decompress.c:334-357 | A stream that passes it with a part known passes it for some contents that start with that part. |
| DecodeSpec.AcceptedInRoom | csnappy_decompress.c:319-387 | In a given room, such as the header announces, some contents of the scratch buffer that start with the known bytes lead to acceptance exactly if the test is passed on those bytes and the output length fits. |
| DecodeSpec.OverReadIsExact | csnappy_decompress.c:374-379 | Bytes from behind the source are copied exactly if the stream ends in a cut literal whose length passes the signed comparison, no offset before it is invalid, and the output before it and that length fit the capacity. |
| DecodeSpec.CutLengthIsHuge | csnappy_decompress.c:374-375 | A cut literal that passes the signed comparison has a length of 2^31 or more, and the stream is incomplete. |
| DecodeSpec.NoOverRead | csnappy_decompress.c:319-387 | Nothing from behind the source is copied when the capacity is below 2^31 or the stream consists of complete elements. |
| DecodeSpec.OverReadHappens | csnappy_decompress.c:368-379 | Five bytes that announce a literal of 2^31 make the decoder copy from behind them in any capacity of at least that size. |
| DecodeSpec.CutCopyIsAccepted | csnappy_decompress.c:346-357 | An incomplete stream that is accepted whatever the scratch buffer holds, with the output that its second byte gives. |
| DecodeSpec.StaleByteDecides | csnappy_decompress.c:334-357 | The incomplete stream 0, b, 1 is accepted exactly when b is one, whatever the scratch buffer held at the start: its own second byte completes the copy. |
| DecodeSpec.HugeLiteralIsAccepted | csnappy_decompress.c:368-375 | A literal tag with a length field of all ones is accepted as an empty literal. |
| Decompress.LoopCond | csnappy_decompress.c:334-342 | Moving the tail to the scratch buffer keeps the remaining bytes and leaves the other bytes of the buffer as they were; the loop goes on exactly when bytes remain, and then the tag and four more bytes can be read, stale ones included. |
| Decompress.FieldAtCursor | csnappy_decompress.c:350-351 | The bytes loaded behind the tag are those of the stream and, behind its end, those of the scratch buffer. |
| Decompress.CopyAtCursor | csnappy_decompress.c:346-353 | The trailer load at the cursor yields the copy that the rest of the stream starts with, completed by the scratch buffer when it is cut short; its fault is the outcome, or the outcome is that of what follows it. |
| Decompress.LiteralAtCursor | csnappy_decompress.c:359-376 | The length at the cursor in 32-bit arithmetic, the signed comparison and the room left decide the outcome, or the literal is appended and the outcome is that of what follows it. |
| Decompress.LiteralVerdict | csnappy_decompress.c:374-379 | The signed comparison refuses only literals that are cut short, or behind which the count of bytes is negative, and they are malformed; a length that passes it overruns, or lies within the input: in all calls that are not over-reads nothing is copied from beyond it. |
| Decompress.DecodeCopy | csnappy_decompress.c:346-357 | The copy branch keeps the outcome that the rest of the run leads to, or returns it; the input left shrinks, and nothing is stored at or beyond the limit. |
| Decompress.DecodeLiteral | csnappy_decompress.c:358-381 | The literal branch does the same on its three paths. |
| Decompress.DecompressNoHeader | csnappy_decompress.c:319-387 | For every source of up to 2^32 - 1 bytes, every capacity and all contents of the uninitialised scratch buffer, short of those under which the code reads behind its source, the return code and the output are those of the specification. For complete elements: 0 with the evaluated output when they evaluate and fit, -5 when the first that fails has an invalid offset, -3 when it has a valid one and does not fit; -5 when the first literal is refused. Nothing is stored at or beyond the capacity. |
| Decompress.Decompress | csnappy_decompress.c:394-411 | A bad header returns -1 and a header above the destination size -2; otherwise the return code, 0, -3 or -5, and the output are those of the body with the header as capacity, in the same numbers, unless it makes the code read behind the source. |
| Decompress.ShortOutputIsAccepted | csnappy_decompress.c:394-411 | A stream that announces five bytes and holds one is accepted with that one. |
| CutStreams.FlatCompletesCut | csnappy_decompress.c:334-357 | A copy that is cut short takes each missing byte of its offset from the same place of the scratch buffer, and is then malformed, an overrun or the overlapped copy. |
| CutStreams.FlatRefusesCutLiteral | csnappy_decompress.c:359-375 | A literal of less than 2^31 bytes that is cut short is malformed, even when it would not fit either; missing bytes of its length come from the scratch buffer. |
| CutStreams.FlatConcat | csnappy_decompress.c:344-382 | What follows complete elements is decoded after them. |
| PagedOutput.OutputBuffer.constructor | python/OutputBuffer.py:7-12 | A new buffer represents the empty string. |
| PagedOutput.OutputBuffer.FlushPage | python/OutputBuffer.py:13-17 | The oldest page goes to the file, the size and the checksum, and becomes the newest. |
| PagedOutput.OutputBuffer.MaybeFlushPage | python/OutputBuffer.py:19-25 | Leaving a full top page keeps the string that the buffer represents. |
| PagedOutput.OutputBuffer.PutByte | python/OutputBuffer.py:26-29 | One byte is appended to the string. |
| PagedOutput.OutputBuffer.PutBytes | python/OutputBuffer.py:47-56 | Any number of bytes is appended, across pages and rotations. |
| PagedOutput.OutputBuffer.InputCell | python/OutputBuffer.py:62-84 | The input indices of a repeat lead to the byte `distance` places before the end, also when they point into the recycled page through index -1; for distance zero they lead to a zero, or to the byte of 36864 places before once that much was written. |
| PagedOutput.RepeatIsCopy | python/OutputBuffer.py:57-86 | From every distance but zero the bytes repeated are those of the overlapped copy of the format. |
| PagedOutput.ZeroDistanceEarly | python/OutputBuffer.py:10-11 | From distance zero they are zeros, as long as the first nine pages are being filled. |
| PagedOutput.ZeroDistanceLate | python/OutputBuffer.py:13-17 | From then on distance zero is a distance of 36864. |
| PagedOutput.OutputBuffer.RepeatRound | python/OutputBuffer.py:63-85 | One round copies up to the end of a page and keeps the input indices `distance` places behind, through a rotation in the middle of the copy. |
| PagedOutput.OutputBuffer.RepeatChunk | python/OutputBuffer.py:57-86 | The repeat is refused exactly when the distance exceeds n bytes written, or 32768 + n % 4096 from 36864 on; otherwise those bytes are appended to the string one by one, distance zero included. |
| PagedOutput.OutputBuffer.BufferedIsWindow | python/OutputBuffer.py:43-44 | How far back the pages reach is a function of the amount written alone: everything up to 36863 bytes, and 32768 bytes and the filled part of a page from then on. |
| PagedOutput.OutputBuffer.Flush | python/OutputBuffer.py:30-42 | The file is the whole string, or 4096 zeros when that is empty, and the size and the checksum returned are those of the file, for any checksum that composes. |
| PagedOutput.RunAndFlush | python/OutputBuffer.py:4-86 | After any run of operations within the window, zero distances included, the file is the flat output, or 4096 zeros for none, with its size and checksum. |
| PagedOutput.FirstOperation | python/OutputBuffer.py:26-86 | What each operation makes of the flat output, in numbers: bytes appended, an overlapped copy, zeros, a copy from 36864 back, or a refusal. |
| PagedDecompress.ReadVarint32 | python/pysnappy_decompress.py:4-18 | The header is read as by the C code, except that the number is not reduced to 32 bits. |
| PagedDecompress.ReadLeBytes | python/pysnappy_decompress.py:20-33 | The value of the next n bytes, or a refusal when there are fewer. |
| PagedDecompress.DecodeElement | python/pysnappy_decompress.py:38-56 | A whole literal is handled, and a whole copy exactly when its offset is at most the number of bytes in the pages, as the format says but for zero offsets; a cut copy and a cut length field are refused; a literal cut short in its data contributes what there is. |
| PagedDecompress.PagedMeaningIsEval | python/pysnappy_decompress.py:37-56 | On complete elements for which there is an output, the elements evaluate exactly when none has offset zero, and then to that output. |
| PagedDecompress.WindowIs32K | python/OutputBuffer.py:5-6 | On complete elements with offsets of 1 to 32768, the decoder and the evaluator agree in failure too. |
| PagedDecompress.SmallOutputs | python/OutputBuffer.py:57-62 | Complete elements that evaluate to at most 36863 bytes mean the same to the paged decoder, for all offsets. |
| PagedDecompress.RefusalInNumbers | python/OutputBuffer.py:57-62 | A body of complete elements is refused exactly when the offset of some copy exceeds n, for n < 36864 bytes before it, or 32768 + n % 4096. |
| PagedDecompress.ZeroOffsetIsAccepted | python/pysnappy_decompress.py:48-56 | A body with a zero offset, which does not evaluate, is accepted under the header 4 and yields four zeros. |
| PagedDecompress.IncompleteBodies | python/pysnappy_decompress.py:44-47 | Of the bodies that the decoder makes something of, the incomplete ones are exactly those that end in a literal cut short in its data. |
| PagedDecompress.CutLiteralIsAccepted | python/pysnappy_decompress.py:44-47 | A literal of two bytes that is cut short after one is accepted under the header 1. |
| CutStreams.PagedConcat | python/pysnappy_decompress.py:37-56 | What follows complete elements is decoded after them. |
| CutStreams.PagedRefusesCut | python/pysnappy_decompress.py:20-56 | Copies that are cut short, and literals cut in their length field, are refused. |
| CutStreams.PagedTakesCutLiteral | python/pysnappy_decompress.py:44-47 | A literal cut in its data contributes what there is. |
| PagedDecompress.DecodeBody | python/pysnappy_decompress.py:37-56 | For every body the loop produces that meaning, or is refused exactly when there is none. |
| PagedDecompress.SnappyDecompress | python/pysnappy_decompress.py:35-60 | For every stream it succeeds exactly when the header can be read and the meaning of the body has the announced length, and the file is then that output, or 4096 zeros for the empty output. |
| RoundTrip.StreamParses | csnappy_compress.c:621-656 | A compressed stream reads back as its length header and the elements emitted, and its body means the input to the paged decoder. |
| RoundTrip.StreamDecodes | csnappy_decompress.c:394-411 | The outcome of the flat decoder on the body of a compressed stream is the input, whatever the scratch buffer holds, or the refusal of its first literal. |
| RoundTrip.DecodersAgree | python/pysnappy_decompress.py:35-60 | On every complete body that is not refused for its length, with offsets of 1 to 32768, the two decoders give the same output whenever it has the length announced, and otherwise neither gives one of that length. |
| RoundTrip.StreamsAgree | csnappy_decompress.c:394-411 | On whole streams with such bodies, and a length announced below 2^32, the paged decoder accepts an output exactly if the flat one does and it has that length; from 2^32 on they never accept the same output. |
| RoundTrip.HeaderDividesDecoders | python/pysnappy_decompress.py:35-60 | A stream of one byte that announces 2^32 + 1 is accepted by the flat decoder and refused by the paged one. |
| RoundTrip.DecodersDisagree | csnappy_decompress.c:301-303 | A copy with offset zero is accepted by the paged decoder and malformed to the flat one. |
| RoundTrip.DecompressEmitted | csnappy_decompress.c:394-411 | Decompression of the header and the code of any elements that evaluate to the input, such as the compressor emits, gives the input back, or the refusal of the first literal of an overlong body. |
| RoundTrip.LongIsRefused | csnappy_decompress.c:359-375 | The body that a compressor emits block by block is refused from 2^31 + 5 bytes on. |
| RoundTrip.CompressThenDecompress | csnappy_decompress.c:394-411 | Compression and the flat decoder give the input back, into any destination that can hold it, for every input up to the bound of the compressor, every table size and any previous contents of the working memory and of the scratch buffer, except exactly when the first literal is refused for what is behind it: never for compressed sizes up to 2^31, always from 10 bytes more on. A smaller destination is refused. |
| RoundTrip.CompressThenPagedDecompress | python/pysnappy_decompress.py:35-60 | Compression and the paged decoder give the input back, except that the empty input comes back as 4096 zeros. |

## Left out

- Compress.MainLoop: that every match the table could offer is found is not stated, because the scan deliberately skips positions; what each scan does find is in FindCandidate and EmitMatch.
- Decompress.DecompressNoHeader: says nothing about calls that make the code read behind its source, because what it finds there is undefined; OverReadIsExact says which calls those are.
- Overlap between a buffer that is read and one that is written, because buffers that are only read are sequences.
- The start of the output array is index 0, where the C code takes any address.
- Reading uninitialised memory as undefined behaviour: the scratch buffer holds arbitrary bytes, which do not change on their own.
- The byte-at-a-time decoder for ARM without unaligned access and the ARM compressor; the former is the model of the reference evaluator.
- Big-endian, strict-alignment and 32-bit loads, kernel and compiler macros.
- The literal entries of the tag table, which the decoder does not look up.
- `get_remaining_space`, the Python compressor, and the command-line programs with their files, pipes and memory maps.
- The container of block_compressor.c.
- Compression ratio and speed, except for the size bounds and the number of probes of a scan.
