/** What an extraction reserves, returns and reports (internal/stream/stream.go), down to the
    bytes of the executable. */
module Contents {
  import opened Bytes
  import opened Format
  import opened Slices
  import opened Decoding
  import opened Grouping
  import opened Extraction
  import opened Refinement
  import FilterBytes
  import opened SliceBytes
  import opened Checksums

  // ---------------------------------------------------------------- sizes

  /** The declared sizes at a list of locations, added up. */
  function Total(entries: seq<DataEntry>, locations: seq<uint32>): nat
    requires forall k :: 0 <= k < |locations| ==> locations[k] < |entries|
  {
    if locations == [] then 0 else entries[locations[0]].uncompressedSize + Total(entries, locations[1..])
  }

  lemma {:induction false} TotalOfMore(entries: seq<DataEntry>, locations: seq<uint32>, l: uint32)
    requires l < |entries| && forall k :: 0 <= k < |locations| ==> locations[k] < |entries|
    ensures Total(entries, locations + [l]) == Total(entries, locations) + entries[l].uncompressedSize
  {
    if locations == [] {
      assert [l][1..] == [];
    } else {
      TotalOfMore(entries, locations[1..], l);
      assert (locations + [l])[1..] == locations[1..] + [l];
    }
  }

  lemma {:induction false} SumIsTotal(entries: seq<DataEntry>, locations: seq<uint32>)
    requires InRange(entries, locations)
    ensures SizeSum(entries, locations) == Total(entries, locations)
  {
    if locations != [] {
      var last := |locations| - 1;
      SumIsTotal(entries, locations[..last]);
      TotalOfMore(entries, locations[..last], locations[last]);
      assert locations[..last] + [locations[last]] == locations;
    }
  }

  /** The locations of a file: its own and then the additional ones, if all of them exist and
      their sizes add up to a uint64. */
  predicate HasPlace(a: Archive, i: nat)
    requires i < |a.files|
  {
    var locations := [a.files[i].location] + a.files[i].additionalLocations;
    (forall k :: 0 <= k < |locations| ==> locations[k] < |a.entries|) && Total(a.entries, locations) <= MAX_UINT64
  }

  /** The size of a file's output: its own, or that at its locations if it has none. */
  function OutputSize(a: Archive, i: nat): nat
    requires i < |a.files| && HasPlace(a, i)
  {
    var locations := [a.files[i].location] + a.files[i].additionalLocations;
    if a.files[i].size != 0 then a.files[i].size else Total(a.entries, locations)
  }

  lemma PlaceIs(a: Archive, i: nat)
    requires i < |a.files|
    ensures Placeable(a, i) <==> HasPlace(a, i)
    ensures HasPlace(a, i) ==> Placed(a, i) == EMPTY_ASSEMBLY.(totalSize := OutputSize(a, i))
  {
    var locations := Locations(a.files[i]);
    assert locations[0] == a.files[i].location;
    if InRange(a.entries, locations) {
      SumIsTotal(a.entries, locations);
    }
  }

  /** The data of a returned file has the size of its output; only a file whose locations exist
      is returned. */
  lemma ReturnedSize(env: Env, a: Archive, limit: int64, i: nat, d: bytes)
    requires limit >= 0 && i < |a.files| && FileResult(i, d) in Results(env, a, limit, false)
    ensures HasPlace(a, i) && |d| == OutputSize(a, i) <= limit
  {
    PlaceIs(a, i);
    IsExtracted(env, a, limit, i, d);
    StartShape(a, limit, false, i);
    OutcomeShape(env, a, limit, false, i);
    if Placeable(a, i) {
      ResultSize(env, a, limit, i, d);
      TakesItsPart(a, i);
      ReservationIsSum(a, limit, false);
    }
  }

  // ---------------------------------------------------------------- the reservation

  /** What file i adds to the reservation: its output, unless there is none to be assembled or
      none that an int64 can hold. */
  function Share(a: Archive, verifyOnly: bool, i: nat): nat
    requires i < |a.files|
  {
    if !HasPlace(a, i) || (verifyOnly && a.files[i].checksum.kind == ChecksumNone) then 0
    else if OutputSize(a, i) > MAX_INT64 then 0
    else OutputSize(a, i)
  }

  function Shares(a: Archive, verifyOnly: bool, n: nat): nat
    requires n <= |a.files|
  {
    if n == 0 then 0 else Shares(a, verifyOnly, n - 1) + Share(a, verifyOnly, n - 1)
  }

  /** As long as the shares add up to a uint64, all of them are accepted; beyond, more than any
      limit is. */
  predicate Tallies(accepted: uint64, sum: nat) {
    if sum <= MAX_UINT64 then accepted == sum else accepted > MAX_INT64
  }

  lemma {:induction false} AcceptedIsShares(a: Archive, placed: seq<FileAssembly>, verifyOnly: bool, n: nat)
    requires n <= |a.files| && placed == PlacedFiles(a)
    ensures Tallies(Accepted(a, placed, verifyOnly, n), Shares(a, verifyOnly, n))
  {
    if n > 0 {
      AcceptedIsShares(a, placed, verifyOnly, n - 1);
      OneMoreShare(a, placed, verifyOnly, n - 1, Accepted(a, placed, verifyOnly, n - 1), Shares(a, verifyOnly, n - 1));
    }
  }

  lemma OneMoreShare(a: Archive, placed: seq<FileAssembly>, verifyOnly: bool, i: nat, before: uint64, sum: nat)
    requires i < |a.files| && placed == PlacedFiles(a)
    requires before == Accepted(a, placed, verifyOnly, i) && Tallies(before, sum)
    ensures Tallies(Accepted(a, placed, verifyOnly, i + 1), sum + Share(a, verifyOnly, i))
  {
    ShareIs(a, verifyOnly, i);
  }

  lemma ShareIs(a: Archive, verifyOnly: bool, i: nat)
    requires i < |a.files|
    ensures var placed := PlacedFiles(a);
      Share(a, verifyOnly, i)
      == if Wants(a, placed, verifyOnly, i) && placed[i].totalSize <= MAX_INT64 then placed[i].totalSize else 0
  {
    PlaceIs(a, i);
    assert Locations(a.files[i])[0] == a.files[i].location;
  }

  lemma TakesItsPart(a: Archive, i: nat)
    requires i < |a.files|
    ensures Share(a, false, i) <= Shares(a, false, |a.files|)
  {
    SharesGrow(a, false, i + 1, |a.files|);
  }

  lemma {:induction false} SharesGrow(a: Archive, verifyOnly: bool, m: nat, n: nat)
    requires m <= n <= |a.files|
    ensures Shares(a, verifyOnly, m) <= Shares(a, verifyOnly, n)
    decreases n
  {
    if m < n {
      SharesGrow(a, verifyOnly, m, n - 1);
    }
  }

  /** The reservation is the sum of the shares, and it is made exactly if that is within the
      limit; all chunks are decoded under what it leaves. */
  lemma ReservationIsSum(a: Archive, limit: int64, verifyOnly: bool)
    requires limit >= 0
    ensures var sum := Shares(a, verifyOnly, |a.files|);
      && (Demand(a, verifyOnly) <= limit <==> sum <= limit)
      && ChunkBudget(a, limit, verifyOnly) == if sum <= limit then limit - sum else limit
  {
    AcceptedIsShares(a, PlacedFiles(a), verifyOnly, |a.files|);
  }

  lemma DemandIsSum(a: Archive, limit: int64, verifyOnly: bool)
    requires limit >= 0 && Shares(a, verifyOnly, |a.files|) <= limit
    ensures Demand(a, verifyOnly) == Shares(a, verifyOnly, |a.files|)
  {
    AcceptedIsShares(a, PlacedFiles(a), verifyOnly, |a.files|);
  }

  // ---------------------------------------------------------------- which fault is reported

  /** A file with no place in the archive has a corrupt entry, one that refers to nothing is not
      reported at all, and one whose output cannot be reserved exceeds the limit. */
  lemma StartFault(env: Env, a: Archive, limit: int64, verifyOnly: bool, i: nat, fault: Fault)
    requires limit >= 0 && i < |a.files|
    ensures a.files[i].location >= |a.entries| ==> FileFailure(i, fault) !in Failures(env, a, limit, verifyOnly)
    ensures a.files[i].location < |a.entries| && !HasPlace(a, i) ==>
      (FileFailure(i, fault) in Failures(env, a, limit, verifyOnly) <==> fault == CorruptData)
    ensures HasPlace(a, i) && !(verifyOnly && a.files[i].checksum.kind == ChecksumNone)
            && (OutputSize(a, i) > MAX_INT64 || Shares(a, verifyOnly, |a.files|) > limit) ==>
      (FileFailure(i, fault) in Failures(env, a, limit, verifyOnly) <==> fault == LimitExceeded)
  {
    PlaceIs(a, i);
    ReservationIsSum(a, limit, verifyOnly);
    StartShape(a, limit, verifyOnly, i);
    OutcomeShape(env, a, limit, verifyOnly, i);
    FaultsAreKnown(env, a, limit, verifyOnly);
    FaultsAreExact(env.codecs, a, Outcomes(env, a, limit, verifyOnly), verifyOnly, |a.files|, i, fault);
  }

  /** What keeps a segment from its place. */
  function SegmentFault(env: Env, limit: int64, r: SegmentRef): Fault
    requires limit >= 0
  {
    var data := RefData(env, limit, r);
    if data.Err? then data.error else CorruptData
  }

  /** A file keeps the fault of the first of its references that fails. */
  lemma {:induction false} FirstFault(env: Env, limit: int64, refs: seq<SegmentRef>, i: nat, f: FileAssembly)
    returns (m: nat)
    requires limit >= 0 && !f.failed && Run(env, limit, refs, i, f).failed
    requires forall r :: r in refs ==> r.fileIndex == i
    ensures m < |refs| && !Fine(env, limit, refs[m], f.assemble, |f.data|)
    ensures forall k :: 0 <= k < m ==> Fine(env, limit, refs[k], f.assemble, |f.data|)
    ensures Run(env, limit, refs, i, f).fault == Some(SegmentFault(env, limit, refs[m]))
  {
    var init := refs[..|refs| - 1];
    RunKeeps(env, limit, init, i, f);
    if Run(env, limit, init, i, f).failed {
      m := FirstFault(env, limit, init, i, f);
      assert forall k :: 0 <= k < |init| ==> init[k] == refs[k];
    } else {
      RunSurvives(env, limit, init, i, f);
      assert forall k :: 0 <= k < |init| ==> refs[k] in init;
      m := |refs| - 1;
    }
  }

  /** A file that starts well and fails has the fault of one of its own segments, whatever
      happens to the other files. */
  lemma FaultIsOwn(env: Env, a: Archive, limit: int64, verifyOnly: bool, i: nat) returns (r: SegmentRef)
    requires limit >= 0 && i < |a.files|
    requires !Start(a, limit, verifyOnly, i).failed && Outcomes(env, a, limit, verifyOnly)[i].failed
    ensures var rest, start := ChunkBudget(a, limit, verifyOnly), Start(a, limit, verifyOnly, i);
      && r in FileRefs(a, i) && !Fine(env, rest, r, start.assemble, |start.data|)
      && FileFailure(i, SegmentFault(env, rest, r)) in Failures(env, a, limit, verifyOnly)
  {
    var rest, start := ChunkBudget(a, limit, verifyOnly), Start(a, limit, verifyOnly, i);
    var own := OwnReferencesOnly(env, a, limit, verifyOnly, i);
    var m := FirstFault(env, rest, own, i, start);
    r := own[m];
    RunKeeps(env, rest, own, i, start);
    StartShape(a, limit, verifyOnly, i);
    FaultsAreKnown(env, a, limit, verifyOnly);
    var fault := SegmentFault(env, rest, r);
    FaultsAreExact(env.codecs, a, Outcomes(env, a, limit, verifyOnly), verifyOnly, |a.files|, i, fault);
  }

  // ---------------------------------------------------------------- stored data

  /** "zlb" and a 1A, which stand in front of every chunk. */
  predicate HasChunkMagic(s: bytes) {
    |s| >= 4 && s[0] == 0x7a && s[1] == 0x6c && s[2] == 0x62 && s[3] == 0x1a
  }

  lemma ChunkMagicIs(s: bytes)
    ensures |s| >= 4 && s[..4] == CHUNK_MAGIC <==> HasChunkMagic(s)
  {
    if HasChunkMagic(s) {
      assert s[..4] == [0x7a, 0x6c, 0x62, 0x1a];
    }
  }

  /** The bytes behind the magic. */
  lemma Front(s: bytes, n: nat)
    requires 4 + n <= |s|
    ensures s[4..][..n] == s[4..4 + n] && (4 + n == |s| ==> s[4..4 + n] == s[4..])
  {
  }

  lemma Part(s: bytes, lo: nat, hi: nat, k: nat, n: nat)
    requires lo + k + n <= hi <= |s|
    ensures s[lo..hi][k..k + n] == s[lo + k..lo + k + n]
  {
    assert s[lo..hi] == s[..hi][lo..];
    FilterBytes.Within(s[..hi], lo, k, n);
    assert s[..hi][lo + k..lo + k + n] == s[lo + k..lo + k + n];
  }

  /** A chunk that is stored as it is, from the stream of its source: behind the magic, as many
      bytes as the chunk has, or what there is of them up to a regular end. */
  lemma StoredChunk(env: Env, chunk: Chunk, limit: int64, s: Slices.Stream)
    requires limit >= 0 && chunk.compression == Stored
    requires ChunkStream(env.r, env.layout, chunk, env.slices) == Ok(s)
    ensures !HasChunkMagic(s.data) ==> ChunkData(env, chunk, limit) == Err(CorruptData)
    ensures HasChunkMagic(s.data) && chunk.encryption != Plaintext ==>
      ChunkData(env, chunk, limit) == Err(PasswordRequired)
    ensures HasChunkMagic(s.data) && chunk.encryption == Plaintext ==>
      var n := Min(Min(chunk.size, MAX_INT64), |s.data| - 4);
      ChunkData(env, chunk, limit)
      == if n > limit then Err(LimitExceeded)
         else if n == chunk.size || n == MAX_INT64 || s.end == Eof then Ok(s.data[4..4 + n])
         else Err(CorruptData)
  {
    ChunkMagicIs(s.data);
    if HasChunkMagic(s.data) {
      Front(s.data, Min(Min(chunk.size, MAX_INT64), |s.data| - 4));
    }
  }

  /** A compressed chunk: the decompressor is given the same bytes, and its dictionary and its
      output are held to the limit. */
  lemma CompressedChunk(env: Env, chunk: Chunk, limit: int64, s: Slices.Stream)
    requires limit >= 0 && chunk.compression != Stored && chunk.encryption == Plaintext
    requires ChunkStream(env.r, env.layout, chunk, env.slices) == Ok(s) && HasChunkMagic(s.data)
    ensures chunk.compression == UnknownCompression ==> ChunkData(env, chunk, limit) == Err(UnsupportedCompression)
    ensures chunk.compression != UnknownCompression ==>
      var n := Min(Min(chunk.size, MAX_INT64), |s.data| - 4);
      var end := if n == chunk.size || n == MAX_INT64 then Eof else s.end;
      var z := env.codecs.decompress(chunk.compression, Stream(s.data[4..4 + n], end));
      ChunkData(env, chunk, limit)
      == if z.BadHeader? then Err(CorruptData)
         else if z.dictionary.Some? && z.dictionary.value > limit then Err(LimitExceeded)
         else if !z.starts then Err(CorruptData)
         else if |z.output.data| > limit then Err(LimitExceeded)
         else if z.output.clean then Ok(z.output.data)
         else Err(CorruptData)
  {
    ChunkMagicIs(s.data);
    Front(s.data, Min(Min(chunk.size, MAX_INT64), |s.data| - 4));
  }

  /** The chunk of an entry is embedded in the executable at p, stored as it is, whole, and no
      larger than the limit. */
  predicate EmbeddedAt(env: Env, chunk: Chunk, limit: int64, p: nat) {
    && chunk.compression == Stored && chunk.encryption == Plaintext && chunk.firstSlice <= chunk.lastSlice
    && env.layout.dataOffset != 0 && p == env.layout.dataOffset + chunk.offset
    && p + 4 + chunk.size <= |env.r.content| && chunk.size <= limit
    && HasChunkMagic(env.r.content[p..])
  }

  lemma EmbeddedChunk(env: Env, chunk: Chunk, limit: int64, p: nat, lo: nat, hi: nat)
    requires limit >= 0 && EmbeddedAt(env, chunk, limit, p) && lo == p + 4 && hi == lo + chunk.size
    ensures hi <= |env.r.content| && hi - lo <= limit
    ensures ChunkData(env, chunk, limit) == Ok(env.r.content[lo..hi])
  {
    var c := env.r.content;
    ChunkSource(env.r, env.layout, chunk, env.slices);
    var s := Stream(c[p..], if env.r.short == ShortFailed then ReadFailed else Eof);
    StoredChunk(env, chunk, limit, s);
    assert s.data[4..4 + chunk.size] == c[p + 4..p + 4 + chunk.size];
  }

  lemma PlainSegment(codecs: Codecs, chunk: bytes, file: StoredFile, limit: int64, d: bytes)
    requires file.filter == NoFilter && InChunk(chunk, file) && d == chunk[file.offset..file.offset + file.size]
    ensures SegmentData(codecs, chunk, file, limit)
         == if Answers(codecs, file.checksum, d) then Ok(d) else Err(BadChecksum)
  {
    SegmentIsChecked(codecs, chunk, file, limit, d);
    SegmentMismatch(codecs, chunk, file, limit);
    assert !Answers(codecs, file.checksum, d) ==> WrongDigest(codecs, chunk, file, limit, d);
  }

  lemma SegmentOfChunk(env: Env, limit: int64, entry: DataEntry, chunk: bytes, segment: Result<bytes, Fault>)
    requires 0 <= limit && ChunkData(env, entry.chunk, limit) == Ok(chunk)
    requires segment == SegmentData(env.codecs, chunk, entry.file, limit - |chunk|)
    requires segment.Ok? && entry.uncompressedSize != 0 ==> |segment.value| == entry.uncompressedSize
    ensures NaiveSegment(env, limit, entry) == segment
  {
  }

  /** The bytes of an entry without a filter are those of the executable at the data offset plus
      the offset of the chunk (p), plus four, plus the offset in the chunk. */
  lemma EmbeddedEntry(env: Env, limit: int64, entry: DataEntry, p: nat, q: nat, d: bytes)
    requires limit >= 0 && EmbeddedAt(env, entry.chunk, limit, p) && entry.file.filter == NoFilter
    requires entry.file.offset + entry.file.size <= entry.chunk.size && q == p + 4 + entry.file.offset
    requires d == env.r.content[q..q + entry.file.size]
    requires entry.uncompressedSize == 0 || entry.uncompressedSize == entry.file.size
    ensures NaiveSegment(env, limit, entry)
         == if Answers(env.codecs, entry.file.checksum, d) then Ok(d) else Err(BadChecksum)
  {
    var lo, hi := p + 4, p + 4 + entry.chunk.size;
    EmbeddedChunk(env, entry.chunk, limit, p, lo, hi);
    var chunk := env.r.content[lo..hi];
    Part(env.r.content, lo, hi, entry.file.offset, entry.file.size);
    PlainEntry(env, limit, entry, chunk, d);
  }

  lemma PlainEntry(env: Env, limit: int64, entry: DataEntry, chunk: bytes, d: bytes)
    requires 0 <= limit && ChunkData(env, entry.chunk, limit) == Ok(chunk) && |chunk| <= limit
    requires entry.file.filter == NoFilter && InChunk(chunk, entry.file)
    requires d == chunk[entry.file.offset..entry.file.offset + entry.file.size]
    requires entry.uncompressedSize == 0 || entry.uncompressedSize == entry.file.size
    ensures NaiveSegment(env, limit, entry)
         == if Answers(env.codecs, entry.file.checksum, d) then Ok(d) else Err(BadChecksum)
  {
    var segment := SegmentData(env.codecs, chunk, entry.file, limit - |chunk|);
    PlainSegment(env.codecs, chunk, entry.file, limit - |chunk|, d);
    SegmentOfChunk(env, limit, entry, chunk, segment);
  }

  /** The bytes of the executable that an entry without a filter names. */
  function Source(env: Env, entry: DataEntry): bytes {
    var q := env.layout.dataOffset + entry.chunk.offset + 4 + entry.file.offset;
    if q + entry.file.size <= |env.r.content| then env.r.content[q..q + entry.file.size] else []
  }

  /** The bytes that the locations name, in order. */
  function Sources(env: Env, entries: seq<DataEntry>, locations: seq<uint32>): bytes
    requires InRange(entries, locations)
  {
    if locations == [] then []
    else Sources(env, entries, locations[..|locations| - 1]) + Source(env, entries[locations[|locations| - 1]])
  }

  /** An entry that is embedded as it is, declares what it stores, and answers its checksum. */
  predicate Plain(env: Env, limit: int64, entry: DataEntry) {
    && EmbeddedAt(env, entry.chunk, limit, env.layout.dataOffset + entry.chunk.offset)
    && entry.file.filter == NoFilter && entry.file.offset + entry.file.size <= entry.chunk.size
    && entry.uncompressedSize == entry.file.size
    && Answers(env.codecs, entry.file.checksum, Source(env, entry))
  }

  predicate AllPlain(env: Env, limit: int64, entries: seq<DataEntry>, locations: seq<uint32>) {
    InRange(entries, locations) && forall k :: 0 <= k < |locations| ==> Plain(env, limit, entries[locations[k]])
  }

  lemma PlainIsSource(env: Env, limit: int64, entry: DataEntry)
    requires limit >= 0 && Plain(env, limit, entry)
    ensures NaiveSegment(env, limit, entry) == Ok(Source(env, entry))
  {
    var p := env.layout.dataOffset + entry.chunk.offset;
    EmbeddedEntry(env, limit, entry, p, p + 4 + entry.file.offset, Source(env, entry));
  }

  lemma {:induction false} SourcesAreNaive(env: Env, limit: int64, entries: seq<DataEntry>, locations: seq<uint32>)
    requires limit >= 0 && AllPlain(env, limit, entries, locations)
    ensures NaiveData(env, limit, entries, locations) == Some(Sources(env, entries, locations))
  {
    if locations != [] {
      var last := |locations| - 1;
      SourcesAreNaive(env, limit, entries, locations[..last]);
      PlainIsSource(env, limit, entries[locations[last]]);
    }
  }

  lemma PlainIsLaidOut(env: Env, a: Archive, limit: int64, rest: int64, i: nat)
    requires limit >= 0 && rest >= 0 && i < |a.files| && Placeable(a, i)
    requires AllPlain(env, rest, a.entries, Locations(a.files[i]))
    ensures LaidOut(env, a, limit, i)
  {
    var locations := Locations(a.files[i]);
    assert forall k :: 0 <= k < |locations| ==> Plain(env, rest, a.entries[locations[k]]);
    DeclaredIsLaidOut(env, a, limit, i);
  }

  /** The naive extractor on a file whose segments make x. */
  lemma PaddedFile(env: Env, a: Archive, rest: int64, i: nat, size: uint64, x: bytes, d: bytes)
    requires rest >= 0 && i < |a.files| && InRange(a.entries, Locations(a.files[i]))
    requires NaiveData(env, rest, a.entries, Locations(a.files[i])) == Some(x)
    ensures NaiveFile(env, a, rest, i, size) == Some(d) <==>
      |x| <= size && d == x + Zeros(size - |x|) && Answers(env.codecs, a.files[i].checksum, d)
  {
    VerifiedAnswers(env.codecs, a.files[i].checksum, d);
  }

  /** Extract, end to end, for a file whose segments are embedded as they are: it returns the
      bytes of the executable at the places that the locations name, in order, with zeros behind
      them up to its size, exactly if the reservation can be made, the bytes do not exceed the
      size, and the whole answers the checksum of the file. */
  lemma ExtractsSources(env: Env, a: Archive, limit: int64, rest: int, i: nat, d: bytes)
    requires limit >= 0 && i < |a.files| && HasPlace(a, i) && rest == limit - Shares(a, false, |a.files|)
    requires rest >= 0
    requires AllPlain(env, rest, a.entries, [a.files[i].location] + a.files[i].additionalLocations)
    ensures var x := Sources(env, a.entries, [a.files[i].location] + a.files[i].additionalLocations);
      var size := OutputSize(a, i);
      FileResult(i, d) in Results(env, a, limit, false) <==>
      && size <= MAX_INT64 && |x| <= size && d == x + Zeros(size - |x|)
      && Answers(env.codecs, a.files[i].checksum, d)
  {
    var locations, size := Locations(a.files[i]), OutputSize(a, i);
    PlaceIs(a, i);
    DemandIsSum(a, limit, false);
    PlainIsLaidOut(env, a, ChunkBudget(a, limit, false), rest, i);
    SourcesAreNaive(env, rest, a.entries, locations);
    ExtractsPadded(env, a, limit, rest, i, size, Sources(env, a.entries, locations), d);
  }

  /** Extract on a file whose segments make x. */
  lemma ExtractsPadded(env: Env, a: Archive, limit: int64, rest: int, i: nat, size: uint64, x: bytes, d: bytes)
    requires limit >= 0 && i < |a.files| && Placeable(a, i) && LaidOut(env, a, ChunkBudget(a, limit, false), i)
    requires 0 <= rest == limit - Demand(a, false) && size == Placed(a, i).totalSize
    requires NaiveData(env, rest, a.entries, Locations(a.files[i])) == Some(x)
    ensures FileResult(i, d) in Results(env, a, limit, false) <==>
      && size <= MAX_INT64 && |x| <= size && d == x + Zeros(size - |x|)
      && Answers(env.codecs, a.files[i].checksum, d)
  {
    PaddedFile(env, a, rest, i, size, x, d);
    ExtractRefinesNaive(env, a, limit, rest, i, size, d);
  }
}
