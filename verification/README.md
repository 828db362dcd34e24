# A Dafny model of the Inno Setup extractor

This Dafny project models the decode-and-assemble engine of a Go library that reads Inno Setup
installers, and the algorithmic kernels around it: the x86 call/jump filters, the multi-slice
reader, grouped extraction under a memory budget, the GOG Galaxy post-processing, the path
cleaner, block framing, data-entry records and the legacy stream cipher with its nonces.

Where the Go code changes state step by step, the model does too (classes, arrays, loops), and
each such method is proved equal to a function of its inputs or of the old state. What the code
is for is then proved about those functions. What such a function computes is also said a second
time, from the bytes and characters alone and without the helpers that the method shares with it.

Check everything with `dafny verify dfyconfig.toml` (Dafny 4.11).

## Main results

- The 4.1.8, 5.2.0 and 5.3.9 filters are bijections on all byte strings, and the byte-at-a-time
  carry chain is 32-bit subtraction (`Filters`). Which positions hold a word, and what becomes of
  each of its bytes, is given for both (`FilterBytes`).
- Reading a chunk over several slices, with any pattern of read sizes, is reading the
  concatenation of the payloads; the first error is final (`Slices`). A payload is what stands
  between the header of a slice and its declared end (`SliceBytes`).
- Extraction by solid chunk returns exactly what decoding every file on its own would
  (`Refinement`, over `Placement`), and verifying never loses a file that extracting returns (`Relaxation`). The
  budget is conserved: it never refuses a reservation for what has just been decoded, never
  clamps a release, and is back at the reserved output after every group (`Extraction`).
- A segment is returned exactly if its digest answers the stored one, and a file exactly if the
  whole does (`Checksums`). The reservation is the sum of the outputs, a failed file has the fault
  of its first bad segment, and a file that is embedded as it is comes out as the bytes of the
  executable at the places that its entries name (`Contents`).
- The Galaxy pass is idempotent on every archive and its groups are contiguous (`GalaxyLaws`). It
  keeps the locations and sizes of a group's parts, with the exact condition (`GalaxySizes`), and
  extracting then returns a start as its inflated parts (`GalaxyExtraction`). The call parser
  accepts exactly the printed calls (`Calls`). Without the loop: a group is a run of files, and what
  Apply leaves of every file, data entry and language follows from the texts of the hooks and
  checks (`GalaxyMeaning`, over `TextLaws`).
- Cleaned paths are canonical and never longer; cleaning is idempotent exactly when no brace is
  left (`Paths`). The result is built rule by rule: prefix, constants, drive, one component after
  the other (`PathLaws`).
- Block framing and uncompressed blocks are bijections (`Blocks`), and data entries of every
  version are parsed back from their serialised form (`Records`, over `Words`). Blocks, compressed
  ones too, and entries are exactly what stands at the offsets of their version (`BlockBytes`).
- The cipher table is a permutation in every reachable state; processing twice is the identity;
  cutting the stream or sharing buffers changes nothing (`Arc4`, `StreamCiphers`). Two chunks
  share a nonce only if they start at the same place (`Nonces`).

## Where the code falls short of the obvious property

Each of these has a concrete input on which it shows and the exact condition under which it does
not.

- An entry that declares no size is not held to one, so the next segment can be stored over its
  bytes. On an installer with a part marker of size 0 the file that Extract returns is not the
  concatenation of its parts (`GalaxyExtraction.UndeclaredSizesOverlap`). The segments of a file
  keep apart and at their places exactly if nothing with bytes stands behind such an entry
  (`Refinement.LaidOutIsExact`), and a returned file whose Size is that of its locations is the
  concatenation exactly then (`Refinement.ConcatenationIsLayout`). The refinement asks for it only
  if all segments of the file decode. It holds for all entries that the parser accepts
  (`Refinement.ParsedIsLaidOut`), and so for every archive that the Galaxy pass has not changed.
- Verifying is not monotone in the memory limit: with more memory the output of one file can be
  reserved, which leaves too little for a chunk that another file needs
  (`Relaxation.VerifyCanLoseAFile`). A file stays verified exactly if it has a checksum or its
  segments need no more than what is left (`Relaxation.MoreMemoryKeepsResults`).
- A record whose digest is missing is accepted if it is the last one, with an empty digest
  (`Records.LostDigest`); `Records.AcceptedLengths` says exactly which lengths are accepted.
- Two Galaxy parts that share a data entry leave it with the size of the last one, so the sizes at
  the locations of the start no longer add up to its Size
  (`GalaxyExtraction.SharedEntryMiscounts`). `GalaxySizes.PartsAreKept` says exactly which groups
  keep their locations and sizes.
- Cleaning twice differs from cleaning once, on nine braces around a letter and on any more
  (`Paths.DeepIsNotStable`), and exactly when a brace is left (`Paths.CleanTwice`), which takes
  constants nested more than eight deep (`Paths.ExpandedBraces`).

## Files

| file | models |
|---|---|
| Bytes, ExclusiveOr, Words | machine integers, little-endian words, exclusive or, sequences of words |
| Format | the archive types of internal/format/types.go |
| Filters, FilterBytes | the instruction filters of internal/stream/stream.go |
| Slices, SliceBytes | internal/stream/slice.go |
| Decoding, Grouping, Extraction | decodeChunk, decodeFileSegment, buildGroups, memoryBudget and Extract |
| Regrouping, Placement, Refinement, Relaxation | the laws of grouping and extraction |
| Checksums, Contents | what is checked, reserved, returned and reported |
| Calls, GalaxyText, Names, Galaxy | internal/gog/gog.go |
| TextLaws, GalaxyMeaning | what the texts of an archive mean, and what Apply makes of it |
| GalaxyLaws, GalaxySizes, GalaxyExtraction | the laws of the Galaxy pass, and what extraction makes of its result |
| Paths, PathLaws | internal/pathutil/path.go |
| Blocks, Records, BlockBytes | block framing and data entries of internal/setup/setup.go |
| StreamCiphers, Arc4, Nonces | internal/crypto/crypto.go and the decrypting reader of internal/stream/stream.go |

## Model

| member | source | states |
|---|---|---|
| `Filters.Bijection4108` | internal/stream/stream.go:597-619 | For every byte string, the 4.1.8 decoder has an encoder with which both round trips are the identity: truncated last words, opcodes inside words and 32-bit wrap-around included. |
| `Filters.DecodeInstruction4108` | internal/stream/stream.go:597-619 | The byte-at-a-time loop with its running uint32 computes the word-level filter: each complete word becomes word - (opcode index + 5) mod 2^32, a cut-off word of k bytes the same mod 2^(8k). |
| `Filters.Step4108` | internal/stream/stream.go:602-617 | One turn of that loop keeps the carry relation: the bytes written and the shifted `addr` together are the wanted word up to a multiple of 2^32. |
| `Filters.CarryStep` | internal/stream/stream.go:609-614 | Adding a byte, writing the low byte and shifting loses only a multiple of 2^32, so the dropped uint32 carry never matters. |
| `Filters.CarryDone` | internal/stream/stream.go:609-614 | Whatever was lost in between, the bytes written are exactly the shifted word (modulo 256 to its length). |
| `FilterBytes.Bytes4108` | internal/stream/stream.go:597-619 | With the two opcodes E8 and E9 written out, which one has a word: one that lies in no earlier word. What lies in no word stays; the word of the opcode at p becomes its value less p + 5, modulo 256 to the number of its bytes that are left. |
| `Filters.Bijection5200` | internal/stream/stream.go:621-661 | The 5.2.0 filter and the 5.3.9 filter with the high-byte flip are bijections on all byte strings, across 64 KiB blocks, untouched tails, the 24-bit wrap and the flip that depends on bit 23. |
| `Filters.DecodeInstruction5200` | internal/stream/stream.go:621-661 | The scanning loop with its uint32 position counter computes the block-and-word filter of the specification for both flag values, at positions beyond 2^32 too. |
| `Filters.Step5200` | internal/stream/stream.go:624-659 | One turn of that loop appends what the filter makes of the bytes it takes, for a plain byte, a word and a word that the end of the stream cuts off, and keeps the counter the position modulo 2^32. |
| `Filters.DecodeAddress` | internal/stream/stream.go:641-658 | One address word: the 32-bit masked arithmetic on the counter is 24-bit subtraction of the true position, with the high byte inverted exactly when bit 23 of the result is set and the flag asks for it. |
| `Filters.Low24Agrees` | internal/stream/stream.go:650 | The low 24 bits do not depend on whether the position counter has wrapped. |
| `Filters.PositionInBlock` | internal/stream/stream.go:627-635 | The wrapped counter finds the true distance to the end of the 64 KiB block. |
| `FilterBytes.Bytes5200` | internal/stream/stream.go:621-661 | An E8 or E9 has a word if it lies in no earlier word and the word ends in its 64 KiB block. What lies in no word stays, and so does a cut-off word and one whose top byte is neither 0 nor FF; otherwise the low three bytes lose the position behind the word modulo 2^24, and the top byte is inverted exactly if that is asked for and bit 23 of the difference is set. |
| `Slices.ExternalIsConcatenation` | internal/stream/slice.go:75-174 | The stream behind a provider is drop(payload(first), Offset) ++ payload(first+1) ++ ... ++ payload(last): always a prefix of it, and all of it and ended by EOF exactly when every slice opens, reaches its declared size (or, raw, ends regularly) and no offset leaves int64. |
| `Slices.ReadsAreAPrefix` | internal/stream/slice.go:94-174 | For any run of Read calls with any buffer sizes, the bytes returned followed by what is left are the stream, so they are a prefix of it; nothing is lost, repeated or reordered. |
| `Slices.ErrorIsFinal` | internal/stream/slice.go:94-174 | The first error a read reports is the one that ends the stream, everything in front of it has been returned by then, and every later read with room returns no byte and the same error. |
| `Slices.SliceSource.Read` | internal/stream/slice.go:94-174 | Read puts the next bytes of the stream at the front of the buffer, at most as many as fit, and reports an error only when the stream is used up and then the error that ends it; it returns for every state. |
| `Slices.SliceSource.ReadSlices` | internal/stream/slice.go:117-173 | The loop of Read terminates under the lexicographic measure (last - slice, open or not, bytes wanted), keeps slice <= last and never wraps the slice counter. |
| `Slices.SliceSource.ReadHere` | internal/stream/slice.go:144-153 | One ReadAt on the open slice, which is only ever asked for at least one byte, delivers what the slice has there and moves the position by exactly that. |
| `Slices.SliceSource.NextSlice` | internal/stream/slice.go:125-131 | At the end of a slice the reader goes on to the next one at position 0, and to EOF behind the last; what is left to read stays the same. |
| `Slices.SliceSource.Open` | internal/stream/slice.go:176-208 | A slice is open only if its header, where it has one, is right; base and end are those of the specification, else the error. |
| `Slices.SliceSource.Embedded` | internal/stream/slice.go:38-73 | The reader of embedded data starts on the embedded stream at the absolute offset. |
| `Slices.SliceSource.External` | internal/stream/slice.go:75-92 | A fresh provider reader has the whole slice stream of its chunk in front of it. |
| `Slices.NewSliceSource` | internal/stream/slice.go:38-92 | The source for a chunk holds exactly the chunk stream, or the error that the chunk ranges and archive layout call for. |
| `Slices.CheckedOffset` | internal/stream/slice.go:222-231 | base + pos as an int64, and an error exactly when it does not fit, however the uint64 addition wraps. |
| `SliceBytes.PayloadIsContent` | internal/stream/slice.go:176-208 | With the magic written out byte by byte: the payload of a slice with a header that declares t is its bytes from 12 to t, or to its end, and it is complete exactly if t bytes are there; without a header it is the whole slice, complete exactly if that ends regularly. |
| `SliceBytes.HeaderedSlice` | internal/stream/slice.go:117-173 | What a source gives from a slice with a header on: its payload from the position on and then the next slices, the next slices at once behind its end, or what is there of it and an error. |
| `SliceBytes.RawSliceBytes` | internal/stream/slice.go:117-173 | The same for a slice without a header. |
| `SliceBytes.NoSlice` | internal/stream/slice.go:176-208 | A missing slice, or a header that is cut off or declares less than itself, ends the stream without a byte. |
| `SliceBytes.ChunkSource` | internal/stream/slice.go:38-92 | Where the bytes of a chunk come from: the slices if there are some and the archive has no data offset, otherwise the executable from the data offset plus that of the chunk; or why from nowhere. |
| `Decoding.ReadAllLimit` | internal/stream/stream.go:699-734 | However the decoder splits its output over reads, the result depends only on the output, its final error and the limit: all of it if it fits, otherwise a limit error or the decoder error. |
| `Decoding.DecodeChunk` | internal/stream/stream.go:378-442 | Decoding a chunk gives the bytes or the fault that the chunk stream, the declared sizes, the dictionary demand and the limit determine. |
| `Decoding.DecodeFileSegment` | internal/stream/stream.go:530-588 | A file segment is the checked range of the chunk, checked against its digest and put through its filter within the limit, with the source order of the checks and their faults. |
| `Decoding.ChunkThreshold` | internal/stream/stream.go:378-442 | The limit is a threshold: a chunk decodes under it exactly if it decodes without one and its dictionary and its output are no larger, and then to the same bytes. |
| `Decoding.SegmentThreshold` | internal/stream/stream.go:530-595 | The same for a segment: unfiltered it needs nothing more, filtered its output; without a zlib filter it has the stored size, as the x86 filters keep lengths. |
| `Checksums.SegmentIsChecked` | internal/stream/stream.go:530-588 | A segment is d exactly if its stored bytes lie in the chunk, are what the filter encodes d to (or inflate to d), d fits the limit if the filter has to make it, and the digest, of the stored bytes under a zlib filter and otherwise of d, answers the stored one: equal, or for a 32-bit sum in reverse. |
| `Checksums.SegmentMismatch` | internal/stream/stream.go:572-586 | A checksum fault comes exactly if everything else is in order and the digest does not answer. |
| `Checksums.SegmentFaults` | internal/stream/stream.go:530-571 | The limit is exceeded exactly by the output of a filter, and a segment is corrupt exactly if it is not in its chunk or does not inflate. |
| `Checksums.ReturnedIsChecked` | internal/stream/stream.go:331-346 | The data of every file that Extract returns answers the checksum of the file. |
| `Checksums.AssembledIsChecked` | internal/stream/stream.go:163-183 | A file whose segments are all in place is returned, by Extract or Verify, exactly if what was assembled answers its checksum, and otherwise reported with a checksum fault. |
| `Contents.StoredChunk` | internal/stream/stream.go:378-448 | A stored chunk, from the stream of its source: behind the four magic bytes as many bytes as it has, or what there is up to a regular end; or its fault. |
| `Contents.CompressedChunk` | internal/stream/stream.go:391-463 | A compressed chunk: the decompressor gets the same bytes, and dictionary and output are held to the limit. |
| `Contents.EmbeddedEntry` | internal/stream/stream.go:378-588 | The bytes of an unfiltered entry are those of the executable at the data offset plus the offset of its chunk, plus four, plus its own. |
| `Refinement.EntryThreshold` | internal/stream/stream.go:378-595 | An entry decodes under a limit exactly if it decodes without one and needs no more, where it needs the larger of dictionary and chunk, or the chunk with the filtered segment beside it. |
| `Grouping.BuildGroups` | internal/stream/stream.go:210-282 | The two passes with the map from chunks to groups leave every file placed, skipped or failed as specified and return the groups of the archive; the overflow check of the second pass can never fail. |
| `Grouping.CheckLocations` | internal/stream/stream.go:229-244 | The first pass accepts a file exactly when all its locations exist and their sizes add up within uint64, and then has the exact sum. |
| `Grouping.AddFile` | internal/stream/stream.go:250-270 | The second pass appends one reference per location, each at the prefix sum of the earlier sizes, to the group of its chunk. |
| `Grouping.AppendRef` | internal/stream/stream.go:252-264 | Through the map, the reference goes to the one group with its chunk, or opens a new last one. |
| `Regrouping.ExactRegrouping` | internal/stream/stream.go:210-282 | Groups have pairwise distinct chunks; each is the stable sort by stored offset of the references with its chunk; and per file, the references over all groups are a permutation of its own (position, destination) list. |
| `Regrouping.SortIsStable` | internal/stream/stream.go:276-280 | The sort orders by stored offset, keeps the references, and keeps the order of those with equal offsets. |
| `Regrouping.GroupedByChunk` | internal/stream/stream.go:252-264 | Before the sort, group g holds exactly the references to its chunk in their original order. |
| `Regrouping.GroupsInSourceOrder` | internal/stream/stream.go:251-264 | The groups come in the order in which their chunks are first referred to, so chunks are decoded in source order. |
| `Extraction.MemoryBudget.Reserve` | internal/stream/stream.go:683-689 | Reserving succeeds exactly when n fits what is available, and then adds n; otherwise nothing changes and the refusal is recorded. |
| `Extraction.MemoryBudget.Release` | internal/stream/stream.go:691-697 | Releasing subtracts n, or clamps to zero and records it; 0 <= used <= limit is kept. |
| `Extraction.AllocateFileBuffers` | internal/stream/stream.go:301-329 | Verification assembles only files with a checksum; one aggregate reservation is made for all assembled files, and files whose output is too large or for which it is refused fail with a limit fault. |
| `Extraction.ProcessGroup` | internal/stream/stream.go:106-160 | One group: every file changes as its own references in this group say, in order; the budget is back at its value before the group, no reservation was refused and no release clamped. |
| `Extraction.ProcessGroups` | internal/stream/stream.go:105-160 | Over all groups: the budget returns to the reserved output at every group boundary, so all chunks are decoded under one limit, and each file ends as the fold of its references. |
| `Extraction.PlaceSegment` | internal/stream/stream.go:124-156 | One reference: decode, size check (only if a size is declared), destination check and copy, or the first fault; the transient reservation of a filtered segment cannot fail. |
| `Extraction.NothingNeeded` | internal/stream/stream.go:284-295 | Leaving out a group that no living file needs changes no file. |
| `Extraction.AssembleFiles` | internal/stream/stream.go:63-160 | From buildGroups to the last group, all files end as specified, starting from an empty table. |
| `Extraction.Extract` | internal/stream/stream.go:63-184 | The report is a function of archive, environment and effective limit (zero is the default, negative an error), equal for every internal order to the report on the per-file outcomes. |
| `Refinement.ExtractRefinesNaive` | internal/stream/stream.go:63-184 | Grouped extraction refines a naive one: for a file that is laid out if all its segments decode, Extract returns file i with data d exactly when its locations exist, its size fits int64, the sizes of all files fit the limit, and decoding its segments one by one under what they leave (`rest`), in the order [Location] ++ AdditionalLocations, concatenating, zero-padding and checking the final checksum gives d. |
| `Refinement.VerifyChecked` | internal/stream/stream.go:63-184 | The same for Verify on a file with a checksum, laid out if all its segments decode: it is returned exactly when the reservation covers it and the naive extractor, under what the reservation leaves, gives some data for it. |
| `Refinement.VerifyUnchecked` | internal/stream/stream.go:63-184 | Verify returns a file without a checksum exactly when its locations exist and each of its segments decodes on its own; there is no condition on the layout. |
| `Refinement.StartShape` | internal/stream/stream.go:301-329 | A placeable file that is to be assembled gets its buffer exactly when its size fits int64 and the sizes of all such files fit the limit; one that is verified without a checksum needs none. |
| `Refinement.OutcomeIsNaive` | internal/stream/stream.go:105-160 | A file that is to be assembled, and is laid out if all its segments decode, ends with exactly its concatenated segments and zero padding, or fails because one does not decode or they exceed the file size, whatever the group order, the sort and the other files. |
| `Refinement.OutcomeSurvives` | internal/stream/stream.go:105-160 | With no condition on the sizes: a file survives exactly when each of its segments decodes on its own and fits at its destination. |
| `Placement.LayoutIsExact` | internal/stream/stream.go:250-269 | Segments that have the sizes their entries declare, where they declare one, start where they start in the concatenation, and share no byte of the output, exactly if nothing with bytes stands behind bytes of an entry that declares no size. |
| `Refinement.LaidOutIsExact` | internal/stream/stream.go:146-156 | So for the decoded segments of a file: no two share a byte of the output, and each is at its place in the concatenation, exactly if the file is laid out. |
| `Refinement.ConcatenationIsLayout` | internal/stream/stream.go:63-184 | For what Extract returns: a returned file whose Size is the sum of the sizes at its locations is the concatenation of its decoded segments exactly if it is laid out. |
| `Refinement.DeclaredIsLaidOut` | internal/stream/stream.go:146-156 | A file is laid out if, of any two of its entries, the earlier declares a size or one of the two stores nothing; this needs no decoding. |
| `Refinement.ParsedIsLaidOut` | internal/setup/setup.go:1466-1552 | In an archive whose entries are what the record parser accepts from some bytes, for any version and compression, every file is laid out. |
| `Records.ParsedDeclare` | internal/setup/setup.go:1466-1552 | Every entry that the parser reads, from any bytes, declares the size that it stores and is not marked for inflating. |
| `GalaxyExtraction.UndeclaredSizesOverlap` | internal/stream/stream.go:146-147 | Where a file is not laid out: an installer, with entries that the record parser accepts, whose first part declares size 0 and holds a byte. After Apply, Extract returns the start with one byte, while its segments together are two. |
| `Refinement.ReportIsExact` | internal/stream/stream.go:162-183 | The report has every file with a payload exactly once and in order, as a result iff its outcome succeeds and as a failure iff not. |
| `Contents.ReturnedSize` | internal/stream/stream.go:229-248 | What Extract returns for a file has its Size, or the sum of the sizes at its locations if that is 0, and only files whose locations all exist are returned. |
| `Contents.ReservationIsSum` | internal/stream/stream.go:301-329 | The reservation is the sum of the outputs to be assembled; it is made exactly if that is within the limit, and chunks are decoded under what it leaves. |
| `Contents.StartFault` | internal/stream/stream.go:214-244 | A file with a bad location is reported as corrupt, one without a payload not at all, and one whose output cannot be reserved as exceeding the limit. |
| `Contents.FirstFault` | internal/stream/stream.go:123-159 | A file keeps the fault of the first of its segments that fails. |
| `Contents.FaultIsOwn` | internal/stream/stream.go:105-171 | A file that starts well and fails is reported with the fault of one of its own segments, whatever happens to the others. |
| `Contents.ExtractsSources` | internal/stream/stream.go:63-184 | End to end: a file whose segments are embedded as they are is returned as the bytes of the executable at the places that its locations name, in order, and zeros up to its size, exactly if the reservation can be made, they do not exceed the size, and the whole answers its checksum. |
| `Relaxation.VerifyRelaxesExtract` | internal/stream/stream.go:85-161 | Every file that Extract returns is also returned by Verify of the same archive under the same limit. |
| `Relaxation.VerifyAcceptsLess` | internal/stream/stream.go:301-329 | If the output that extraction considers fits int64, verification considers no more of it, and no sum of it overflows. |
| `Relaxation.MoreMemoryKeepsResults` | internal/stream/stream.go:63-184 | What is returned under a limit is returned, with the same bytes, under a larger one exactly if it is extracted, or has a checksum, or its segments need no more than the larger limit leaves behind the reservation. |
| `Relaxation.VerifyThreshold` | internal/stream/stream.go:301-329 | Verify returns a file without a checksum exactly if its segments decode without a limit and need no more than the reservation for other files leaves. |
| `Relaxation.KeptOutsideTheWindow` | internal/stream/stream.go:301-329 | Only a limit that is the first to cover the reservation and leaves less behind it can lose a file. |
| `Relaxation.MoreForChunks` | internal/stream/stream.go:301-329 | A larger limit leaves at least as much for the chunks iff not (limit < demand <= more < limit + demand). |
| `Relaxation.VerifyCanLoseAFile` | internal/stream/stream.go:301-329 | Verify is not monotone in the limit: a concrete archive verifies its second file under 4 bytes and fails it under 5. |
| `Calls.ParseFunctionCall` | internal/gog/gog.go:329-412 | The parser loops compute the arguments that the call grammar gives, and the empty list (nil) for every other text. |
| `Calls.ParsesPrinted` | internal/gog/gog.go:329-412 | Parsing undoes printing: for every list of arguments, each quoted with inner quotes doubled or bare where it can be, any white space between tokens and an optional trailing semicolon, exactly the list comes back. |
| `Calls.ParserIsExact` | internal/gog/gog.go:329-412 | A text parses to a non-empty list exactly when it is a printed form of a well-formed call to that name with these arguments. |
| `GalaxyText.ParseConstraints` | internal/gog/gog.go:199-215 | The constraint list is what splitting at "#", trimming and stripping negations gives. |
| `GalaxyText.ComputeArchitectureBits` | internal/gog/gog.go:252-282 | The bits are set exactly when some constraint asks for them, directly or, if it is the only one, by excluding the other; asking for both sets neither. |
| `GalaxyText.FirstCallIsExact` | internal/gog/gog.go:320-327 | Arguments are found exactly if the text is a printed call to one of the two names with them, the first name winning; for different names never both. |
| `TextLaws.NumberIsRead` | internal/gog/gog.go:114-132 | A number is read exactly from decimal digits whose value, summed from the front, is a uint64. |
| `TextLaws.DigestIsRead` | internal/gog/gog.go:294-300 | A digest is read exactly from 32 hexadecimal digits, two for each byte. |
| `TextLaws.TrimsWhite` | internal/gog/gog.go:201-209 | Trimming takes white space characters from both ends, and leaves none there. |
| `TextLaws.TokenIsRead` | internal/gog/gog.go:201-213 | A token names what is left of it without white space, negated behind an exclamation mark. |
| `TextLaws.ConstraintsAreTokens` | internal/gog/gog.go:199-215 | Constraints are the tokens between hash signs, in order, without those that name nothing. |
| `TextLaws.ExpressionFront` | internal/gog/gog.go:217-231 | The expression puts " or " between the names and " not " before negated ones. |
| `TextLaws.AllLanguagesIs` | internal/gog/gog.go:233-250 | A check is for all languages exactly if there are several and it names each without a negation; the length test decides nothing. |
| `TextLaws.BitsAreAsked` | internal/gog/gog.go:252-282 | The architecture is the widths named without a negation, or the other one for a single negated width, and none if both are asked for. |
| `TextLaws.LooksLikeIs` | internal/gog/gog.go:17-78 | An archive looks like one of GOG exactly if its registry holds a game ID, or failing any the name behind a key of a game, or its publisher contains gog.com, in whatever case. |
| `Galaxy.GogInstaller.Apply` | internal/gog/gog.go:42-71 | The whole pass, writing through shared arrays, leaves the archive that the field-by-field specification gives. |
| `Galaxy.GogInstaller.ApplyParts` | internal/gog/gog.go:90-162 | The part loop with activeStart and remaining changes files and entries field by field as the markers say, and collects languages and the constraint flag. |
| `Galaxy.GogInstaller.OpenGroup` | internal/gog/gog.go:95-125 | A start marker sets destination, checksum and size of its file and opens a group of the declared number of parts (malformed: none; zero: one). |
| `Galaxy.GogInstaller.TakePart` | internal/gog/gog.go:127-155 | A part marker is taken only by an active group with parts left and an existing entry; the writes go to the start file, the part file and the entry, also where start and part are the same file. |
| `Galaxy.GogInstaller.AddPart` | internal/gog/gog.go:136-148 | Size is added modulo 2^64 every time, the location only if it is new, and the destination is cleared only for a file other than the start. |
| `Galaxy.GogInstaller.ApplyConstraints` | internal/gog/gog.go:164-192 | Languages, bits and components of every file with a destination as its checks say; other files are untouched. |
| `Galaxy.CollectLanguages` | internal/gog/gog.go:284-292 | The names in the first argument of the check are added to the set. |
| `GalaxyLaws.ApplyIsIdempotent` | internal/gog/gog.go:42-71 | Apply twice is Apply once on the whole archive, for every archive. |
| `GalaxyLaws.ControlIsWellFormed` | internal/gog/gog.go:90-155 | In every run, parts remain only with an active start, and then every file from that start to here is one of its parts, no other start lies between, and parts taken plus parts remaining are the declared number. |
| `GalaxyLaws.GroupsAreContiguous` | internal/gog/gog.go:90-155 | The parts a start takes are a contiguous run from the start itself, no other start among them, and at most the declared number. |
| `GalaxyLaws.OnlyAbsorbedAreCleared` | internal/gog/gog.go:143-148 | No file is taken by two starts; Apply empties a destination only of a file that a start other than itself has taken, and such a file is not a start. |
| `GalaxyMeaning.GroupsAreRuns` | internal/gog/gog.go:90-155 | Without the loop: file i is taken by start s exactly if s calls the start hook and declares more than i - s parts, every file from s to i calls the part hook with a size and has a data entry, and none behind s calls the start hook. |
| `GalaxyMeaning.StartIsNamed` | internal/gog/gog.go:98-110 | A start is left with its second argument as destination, if there is one that is not empty, and with the MD5 digest that the first spells as checksum, or none. |
| `GalaxyMeaning.OthersAreKept` | internal/gog/gog.go:127-155 | All other files keep checksum, size and locations, and their destination unless they are in the group of an earlier start. |
| `GalaxyMeaning.HooksStay` | internal/gog/gog.go:90-192 | Locations, hooks and checks are never touched. |
| `GalaxyMeaning.StartHasGroupSize` | internal/gog/gog.go:110-142 | The Size of a start is the sum of the sizes that the files of its group declare, modulo 2^64. |
| `GalaxyMeaning.EntryStays` | internal/gog/gog.go:136-139 | A data entry in which no part is stored stays as it is. |
| `GalaxyMeaning.EntryIsLastPart` | internal/gog/gog.go:136-139 | Any other gets the size of the last part stored in it and the zlib filter, and keeps chunk, range and checksum. |
| `GalaxyMeaning.CheckIsApplied` | internal/gog/gog.go:164-185 | A file that still has a destination and calls check_if_install: its component, architecture and languages afterwards. |
| `GalaxyMeaning.DependencyIsApplied` | internal/gog/gog.go:187-190 | A dependency without a check call names the component of a file that has none. |
| `GalaxyMeaning.UncheckedStays` | internal/gog/gog.go:164-192 | Without either call, or without a destination, languages, component and architecture stay. |
| `GalaxyMeaning.FoundIsOffered` | internal/gog/gog.go:157-159 | The languages found are those that the check of a file names which still has a destination. |
| `GalaxyMeaning.LanguagesAreFound` | internal/gog/gog.go:55-70 | The list of languages is kept, or dropped if no file was bound to one, and the found ones that are missing follow in increasing order; without any found it stays. |
| `GalaxyMeaning.GalaxyIs` | internal/gog/gog.go:42-88 | Apply does nothing unless the archive looks like one of GOG or a file calls one of the four hooks. |
| `GalaxySizes.PartsAreKept` | internal/gog/gog.go:94-161 | For a start that took its own part and had no additional locations: after Apply its locations are those of its parts in order and each part's entry holds the size the part declared, exactly if its later parts have pairwise distinct locations and, for each of its parts, the last part of any group stored at that location declares the same size. |
| `GalaxySizes.SizeIsConserved` | internal/gog/gog.go:94-161 | Under that condition, and if the sum fits uint64, the Size of the start is the sum of the uncompressed sizes at [Location] ++ AdditionalLocations. |
| `GalaxySizes.ExtractAgreesOnSize` | internal/stream/stream.go:229-248 | For such a start, the total size that buildGroups computes is this Size, and the file is neither skipped nor failed. |
| `GalaxyExtraction.StartAsLeft` | internal/gog/gog.go:136-148 | What Apply leaves of such a start: it can be extracted, its locations are those of its parts in order, its total size is theirs, and every entry there has the zlib filter. |
| `GalaxyExtraction.StartIsItsParts` | internal/stream/stream.go:63-184 | Extracting the applied archive returns such a start with d exactly when the reservation covers it and d is the concatenation of the segments at those locations, has the Size of the start and passes its checksum. |
| `GalaxyExtraction.SegmentIsInflated` | internal/stream/stream.go:555-588 | A segment behind the zlib filter is what inflate makes of its range of the chunk. |
| `GalaxyExtraction.SharedEntryMiscounts` | internal/gog/gog.go:142-147 | Where the condition fails: an installer with two parts of sizes 5 and 7 in one entry. After Apply the start has Size 12, and the sizes at its locations add up to 14. |
| `Names.BeforeIsLexicographic` | internal/gog/gog.go:61-65 | The order the names are sorted by is lexicographic: one name precedes another exactly when, behind their common front, it ends or holds the smaller character. |
| `Names.IncreasingIsUnique` | internal/gog/gog.go:61-65 | Sorted distinct names are determined by their set, so the map order of Go does not show. |
| `Paths.Clean` | internal/pathutil/path.go:16-49 | The component stack, separators, drive prefix and constants: Clean computes the cleaned path of the specification. |
| `Paths.CleanPart` | internal/pathutil/path.go:51-63 | Control characters and the characters reserved on Windows become "$", everything else stays. |
| `Paths.ExpandConstants` | internal/pathutil/path.go:65-99 | The loop with its bounded recursion expands matched constants to their contents, down to depth 8, and unmatched braces to "$". |
| `Paths.FindConstantEnd` | internal/pathutil/path.go:101-115 | The matching brace of a constant, counting inner ones, or none. |
| `Paths.CleanIsCanonical` | internal/pathutil/path.go:16-49 | Every result is canonical: components that are neither empty nor "." nor ".." and hold no separator, joined by single slashes; the stack decides them. |
| `Paths.CanonicalCharacters` | internal/pathutil/path.go:16-63 | In characters: no leading slash, no backslash, no control or reserved character anywhere. |
| `Paths.CleanIsNotLonger` | internal/pathutil/path.go:16-49 | The result is never longer than the input. |
| `Paths.CleanTwice` | internal/pathutil/path.go:16-99 | Cleaning is idempotent on a path exactly when its cleaned form has no brace left. |
| `Paths.ExpandedBraces` | internal/pathutil/path.go:65-115 | A brace survives expansion exactly when matched constants are nested deeper than eight. |
| `Paths.EightDeepIsStable` | internal/pathutil/path.go:65-99 | So nesting of at most eight guarantees that cleaning twice is cleaning once. |
| `Paths.DeepIsNotStable` | internal/pathutil/path.go:65-99 | Where idempotence fails: a letter in n braces, n more than eight, is cleaned to n - 8 braces, so a second cleaning gives something else. |
| `PathLaws.AppIsDropped` | internal/pathutil/path.go:17-20 | {app} in whatever case, in front of a separator or at the end, is dropped. |
| `PathLaws.ConstantIsContents` | internal/pathutil/path.go:65-99 | Any other constant without inner braces is cleaned as its contents, and an empty one as a dollar sign, wherever it stands. |
| `PathLaws.UnmatchedIsDollar` | internal/pathutil/path.go:81-88 | A brace that nothing closes is cleaned as a dollar sign. |
| `PathLaws.DriveIsDropped` | internal/pathutil/path.go:23-32 | A drive, and leading slashes, are dropped. |
| `PathLaws.AppendsComponent` | internal/pathutil/path.go:34-63 | One more component behind either separator: nothing for an empty one or a dot, the parent for two dots, and otherwise the component, with a dollar sign for each character that it may not hold. |
| `PathLaws.CleanedCharacters` | internal/pathutil/path.go:51-63 | No control character, no angle bracket, colon, quote, bar, question mark or star, no backslash and no leading slash in any result. |
| `Blocks.UnwrapBlockChunks` | internal/setup/setup.go:437-460 | The loop over 4096-byte CRC-prefixed pieces computes the unwrapped bytes or the fault. |
| `Blocks.FramingIsExact` | internal/setup/setup.go:437-460 | A byte string unwraps to x exactly when it is the canonical framing of x, whatever the checksum function. |
| `Blocks.FramedLength` | internal/setup/setup.go:437-460 | A framing is four bytes longer than its content for every started piece: n + 4*ceil(n/4096) bytes for n. |
| `Blocks.ReadBlock` | internal/setup/setup.go:388-435 | Header, checksum, limits, stream and decompression: the payload and next offset, or the fault, of the specification, for the 9- and the 13-byte header. |
| `Blocks.BlockIsExact` | internal/setup/setup.go:388-435 | Where the header says uncompressed, readBlock returns (x, next) exactly when the bytes up to next are the block written for x and x is within the limit. |
| `BlockBytes.VersionOrder` | internal/setup/setup.go:339-347 | Versions are ordered like the numbers that their three bytes make. |
| `BlockBytes.FramedPiece` | internal/setup/setup.go:437-460 | Piece q of a framing, 4096 bytes or what is left, stands behind its checksum at 4100 q. |
| `BlockBytes.BlockIsRead` | internal/setup/setup.go:388-435 | readBlock returns (x, next) exactly for a header whose size is within the limit and whose checksum is right, in front of the framing of a stream that is x if the flag is 0 and is otherwise unpacked to x, by LZMA from 4.1.6 on and by zlib before; the header has 13 bytes from 6.7.0 on and 9 before. |
| `BlockBytes.BadHeader` | internal/setup/setup.go:393-409 | The fault of a bad header, its size judged before its checksum. |
| `Records.Cursor.Read` | internal/setup/setup.go:39-46 | n bytes and the position moved behind them, or an error and nothing moved. |
| `Records.Cursor.MustRead` | internal/setup/setup.go:841-844 | A short read is swallowed: no bytes, and the position stays. |
| `Records.ParseDataEntry` | internal/setup/setup.go:1466-1552 | Field by field, an entry and the rest of the stream as the version layout gives them, or an error. |
| `Records.ParseDataEntries` | internal/setup/setup.go:286-301 | n entries and nothing behind them, or an error. |
| `Records.EntriesComeBack` | internal/setup/setup.go:1466-1552 | For every version: any list of entries that the version can represent, serialised, parses back to the same list and leaves the cursor at the end. |
| `Records.ParserIsExact` | internal/setup/setup.go:1466-1552 | n entries are accepted exactly for the serialised forms of n records, where only the last may lack its digest; the entries are those records' entries. |
| `Records.AcceptedLengths` | internal/setup/setup.go:841-844 | Acceptance depends on the length alone: n whole records, or n records less one digest. |
| `Records.LostDigest` | internal/setup/setup.go:841-844 | A record whose digest has been cut out is accepted, with an empty digest. |
| `BlockBytes.RecordBytes` | internal/setup/setup.go:1466-1552 | Where each field of a record stands and what each flag bit means, for every version; parsing goes on right behind it. |
| `BlockBytes.EntriesAreAt` | internal/setup/setup.go:290-301 | Entry i of an accepted stream is the one behind i whole records; only the last can lack its digest. |
| `BlockBytes.PositionIs` | internal/setup/setup.go:290-301 | Behind i whole records means at i times the size of a record. |
| `Words.ReadWritten` | internal/setup/setup.go:69-93 | Written little-endian numbers that fit their widths are read back, whatever follows. |
| `Words.WriteRead` | internal/setup/setup.go:69-93 | Numbers that were read fit their widths and, written again, are the bytes that were read. |
| `Arc4.TableIsAlwaysAPermutation` | internal/crypto/crypto.go:205-241 | After key setup with any key and any number of steps, every byte value occurs exactly once in the table. |
| `Arc4.PermutationIsBijective` | internal/crypto/crypto.go:200-203 | Such a table maps positions to values one to one and onto. |
| `Arc4.StepIsInvertible` | internal/crypto/crypto.go:221-226 | A step is a bijection on states: it can be taken back, and every state has a predecessor. |
| `Arc4.StepOnTable` | internal/crypto/crypto.go:221-226 | One step on numbers: both counters, the exchanged elements, and the key byte, which is the element at the sum of the two. |
| `Arc4.SetupStart` | internal/crypto/crypto.go:209-213 | Key setup starts from all byte values in order. |
| `Arc4.SetupRound` | internal/crypto/crypto.go:213-217 | Round n adds element n and the key byte at n modulo the key length, and exchanges element n with the one at the counter. |
| `Arc4.ARC4.NewARC4` | internal/crypto/crypto.go:205-219 | An error exactly for the empty key; otherwise a fresh cipher in the keyed state. |
| `Arc4.ARC4.Next` | internal/crypto/crypto.go:221-226 | One step and its key byte, with byte arithmetic modulo 256; the table stays a permutation. |
| `Arc4.ARC4.Discard` | internal/crypto/crypto.go:228-232 | n steps; none for a negative n. |
| `Arc4.ARC4.XORKeyStream` | internal/crypto/crypto.go:234-241 | Refused (the source panics) exactly when the destination is shorter; else the memory is that of byte-by-byte encryption, for separate and for shared arrays with any overlap, and the state has moved by the input length. |
| `Arc4.SecondPassUndoesFirst` | internal/crypto/crypto.go:205-241 | With the same key and discard, a second pass restores the input. |
| `StreamCiphers.CutsDoNotMatter` | internal/stream/stream.go:754-765 | Processing pieces one after the other gives the bytes of one call on the whole, for any cutting and any cipher. |
| `StreamCiphers.AliasingIsHarmless` | internal/stream/stream.go:759-765 | In place, and wherever the destination does not start inside unread input, the shared-memory result is that of separate buffers. |
| `StreamCiphers.CryptedAt` | internal/crypto/crypto.go:234-241 | Byte i is combined with the key byte after i + 1 steps. |
| `ExclusiveOr.XorBitAt` | internal/crypto/crypto.go:238-240 | Exclusive or is addition without a carry, bit by bit. |
| `Arc4.XorReader.Read` | internal/stream/stream.go:759-765 | However many bytes the wrapped reader gives, each read leaves in the buffer the next bytes of the whole stream under one call of the cipher and the rest of the buffer alone, and passes the error on, which comes only behind the last byte. |
| `Nonces.DeriveChunkNonce` | internal/crypto/crypto.go:174-183 | A fresh nonce as specified, or an error exactly for a wrong key length. |
| `Nonces.NonceIsMasked` | internal/crypto/crypto.go:174-183 | The nonce is the base nonce combined byte by byte with offset and first slice; its last twelve bytes are unchanged. |
| `Nonces.NonceBytes` | internal/crypto/crypto.go:174-183 | Which byte of the nonce is combined with which byte of the offset or the first slice, and which stay. |
| `Nonces.NonceTwice` | internal/crypto/crypto.go:174-183 | Deriving again from the derived nonce gives the base nonce. |
| `Nonces.ChunksHaveTheirOwnNonce` | internal/crypto/crypto.go:174-183 | Under one key two chunks have the same nonce exactly when offset and first slice agree. |
| `Nonces.VerifyXChaChaPassword` | internal/crypto/crypto.go:154-170 | True exactly for a right key length, at least four expected bytes, and the first four key bytes under the test nonce equal to them. |
| `Nonces.TestNonceIsAChunkNonce` | internal/crypto/crypto.go:159-161 | The password-test nonce is a chunk nonce exactly for offset 0 and first slice 2^32 - 1. |

## Left out

- Decoding.ReadAllLimit: assumes that a reader that has not ended gives bytes. (The source answers a read without bytes and without an error with an error of its own, except under limit 0, where it takes it for the end.)
- Decoding.DecodeChunk: the branches that decrypt with a key; a chunk that needs one is a fault. The ciphers themselves are in Arc4, StreamCiphers and Nonces.
- Extraction.Extract: the password and encryption check that `archiveKey` makes before anything is read.
- Decompressors, hashes, CRC-32 and XChaCha20 are parameters: deterministic functions of what they read (for a decompressor: the dictionary it demands, its output and how it ends). Readers are assumed to make progress until they are done.
- `io.ReaderAt` is an immutable byte string with one kind of short read (EOF, another error, or no error); readers that change between calls are not modelled.
- Encrypted archives: `archiveKey`, the password policy and the key derivation. The extraction model reads unencrypted chunks and reports that a password is required for the others.
- `lzma2Dictionary`, a table of 41 values, is part of the decompressor parameter.
- The executable loader, `readVersion`, `parseHeader` and the `skip*` functions, UTF-16 and the other record types: straight-line field reads that would only add easy members.
- The public wrapper, error texts and error wrapping; faults are told apart by kind only.
- Buffer sizes, capacity hints and `bufio`.
- File entry fields that none of the modelled code reads or writes.
- Integers are those of a 64-bit platform; lengths of byte strings are assumed to be below 2^63 where the code adds them as `int64`.
- Strings are Dafny strings with one character per byte. Case folding is modelled on ASCII letters, which decides the comparisons with ASCII constants that the code makes.
- A nil archive passed to `Apply`, and the difference between a nil and an empty Go slice.
- `XORKeyStream` with too short a destination panics in Go; the model returns false and changes nothing.
- The last return of `newSliceSource` is not modelled: the two conditions in front of it cover every archive, so it is never reached.
