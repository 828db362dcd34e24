/** Grouped extraction refines a naive one that decodes every segment on its own, file by file
    and location by location, under the same limits. */
module Refinement {
  import opened Bytes
  import opened Format
  import opened Decoding
  import opened Grouping
  import opened Regrouping
  import opened Placement
  import opened Extraction
  import Blocks
  import Records

  // ---------------------------------------------------------------- the naive extractor

  /** One data entry decoded on its own. */
  function NaiveSegment(env: Env, limit: int64, entry: DataEntry): Result<bytes, Fault>
    requires limit >= 0
  {
    match ChunkData(env, entry.chunk, limit)
    case Err(fault) => Err(fault)
    case Ok(chunk) =>
      match SegmentData(env.codecs, chunk, entry.file, limit - |chunk|)
      case Err(fault) => Err(fault)
      case Ok(segment) =>
        if entry.uncompressedSize != 0 && |segment| != entry.uncompressedSize then Err(CorruptData) else Ok(segment)
  }

  /** The segments of a list of locations, concatenated; None if one of them fails. */
  function NaiveData(env: Env, limit: int64, entries: seq<DataEntry>, locations: seq<uint32>): Option<bytes>
    requires limit >= 0 && InRange(entries, locations)
  {
    if locations == [] then Some([])
    else
      var last := |locations| - 1;
      var before := NaiveData(env, limit, entries, locations[..last]);
      var segment := NaiveSegment(env, limit, entries[locations[last]]);
      if before.Some? && segment.Ok? then Some(before.value + segment.value) else None
  }

  /** Data at the front of an output of the given size, if it fits. */
  function Padded(data: Option<bytes>, totalSize: uint64): Option<bytes> {
    if data.Some? && |data.value| <= totalSize then Some(data.value + Zeros(totalSize - |data.value|)) else None
  }

  function Passed(codecs: Codecs, file: FileEntry, padded: Option<bytes>, totalSize: uint64): Option<bytes> {
    if padded.Some? && FinalFault(codecs, file, padded.value, totalSize) == None then padded else None
  }

  /** A file on its own: its segments in order, padded with zeros to its size, if they pass the
      final checksum. */
  function NaiveFile(env: Env, a: Archive, limit: int64, i: nat, totalSize: uint64): Option<bytes>
    requires limit >= 0 && i < |a.files| && InRange(a.entries, Locations(a.files[i]))
  {
    var data := NaiveData(env, limit, a.entries, Locations(a.files[i]));
    Passed(env.codecs, a.files[i], Padded(data, totalSize), totalSize)
  }

  // ---------------------------------------------------------------- how much a segment needs

  /** The entry decoded on its own with no limit. */
  function FreeEntry(env: Env, entry: DataEntry): Option<bytes> {
    var chunk := FreeChunk(env, entry.chunk);
    if chunk.None? then None
    else
      var segment := FreeSegment(env.codecs, chunk.value, entry.file);
      if segment.Some? && (entry.uncompressedSize == 0 || |segment.value| == entry.uncompressedSize) then segment
      else None
  }

  /** The memory that decoding the entry takes: the dictionary or the chunk, or the chunk with
      the filtered segment beside it. */
  function Need(env: Env, entry: DataEntry): nat {
    var chunk, need := FreeChunk(env, entry.chunk), ChunkNeed(env, entry.chunk);
    if chunk.None? then need
    else
      var both := |chunk.value| + SegmentNeed(env.codecs, chunk.value, entry.file);
      if both > need then both else need
  }

  /** An entry decodes under a limit exactly if it decodes without one and needs no more, and
      then to the same bytes. */
  lemma EntryThreshold(env: Env, limit: int64, entry: DataEntry)
    requires limit >= 0
    ensures NaiveSegment(env, limit, entry).Ok? <==> FreeEntry(env, entry).Some? && Need(env, entry) <= limit
    ensures NaiveSegment(env, limit, entry).Ok? ==> FreeEntry(env, entry) == Some(NaiveSegment(env, limit, entry).value)
  {
    ChunkThreshold(env, entry.chunk, limit);
    var chunk := FreeChunk(env, entry.chunk);
    if chunk.Some? && ChunkNeed(env, entry.chunk) <= limit {
      SegmentThreshold(env.codecs, chunk.value, entry.file, limit - |chunk.value|);
    }
  }

  // ---------------------------------------------------------------- the layout of a file

  predicate HasBytes(env: Env, limit: int64, entry: DataEntry)
    requires limit >= 0
  {
    var segment := NaiveSegment(env, limit, entry);
    segment.Ok? && segment.value != []
  }

  /** Do all segments of file i decode on their own? */
  predicate AllDecode(env: Env, a: Archive, limit: int64, i: nat)
    requires limit >= 0 && i < |a.files| && InRange(a.entries, Locations(a.files[i]))
  {
    forall k :: 0 <= k < |Locations(a.files[i])| ==>
      NaiveSegment(env, limit, a.entries[Locations(a.files[i])[k]]).Ok?
  }

  /** No segment with bytes stands behind an entry of file i that declares no size and yet has
      bytes.  (The size of a decoded segment is only checked when the entry declares one.) */
  predicate LaidOut(env: Env, a: Archive, limit: int64, i: nat)
    requires limit >= 0 && i < |a.files| && InRange(a.entries, Locations(a.files[i]))
  {
    var locations := Locations(a.files[i]);
    forall j, k | 0 <= j < k < |locations| && SizeAt(a.entries, locations[j]) == 0 ::
      HasBytes(env, limit, a.entries[locations[j]]) ==> !HasBytes(env, limit, a.entries[locations[k]])
  }

  // ---------------------------------------------------------------- only a file's own references count

  lemma {:induction false} RunOwn(env: Env, limit: int64, refs: seq<SegmentRef>, i: nat, f: FileAssembly)
    requires limit >= 0
    ensures Run(env, limit, refs, i, f) == Run(env, limit, OfFile(refs, i), i, f)
  {
    if refs != [] {
      var init, last := refs[..|refs| - 1], refs[|refs| - 1];
      var own := OfFile(init, i);
      RunOwn(env, limit, init, i, f);
      if last.fileIndex == i {
        assert (own + [last])[..|own|] == own && OfFile(refs, i) == own + [last];
      } else {
        assert OfFile(refs, i) == own;
      }
    }
  }

  lemma {:induction false} OwnIndex(refs: seq<SegmentRef>, i: nat)
    ensures forall r :: r in OfFile(refs, i) ==> r.fileIndex == i
  {
    if refs != [] {
      OwnIndex(refs[..|refs| - 1], i);
    }
  }

  /** Does this reference leave a file with `room` bytes of output (or none) unfailed? */
  predicate Fine(env: Env, limit: int64, ref: SegmentRef, assemble: bool, room: nat)
    requires limit >= 0
  {
    var data := RefData(env, limit, ref);
    && data.Ok?
    && (ref.expectedSize != 0 ==> |data.value| == ref.expectedSize)
    && (assemble ==> ref.destOffset + |data.value| <= room)
  }

  lemma StepSurvives(env: Env, limit: int64, ref: SegmentRef, f: FileAssembly)
    requires limit >= 0
    ensures !Step(env, limit, ref, f).failed <==> !f.failed && Fine(env, limit, ref, f.assemble, |f.data|)
  {
  }

  /** A file survives its references exactly when each of them is fine, in whatever order. */
  lemma {:induction false} RunSurvives(env: Env, limit: int64, refs: seq<SegmentRef>, i: nat, f: FileAssembly)
    requires limit >= 0 && !f.failed
    requires forall r :: r in refs ==> r.fileIndex == i
    ensures !Run(env, limit, refs, i, f).failed <==>
            forall r :: r in refs ==> Fine(env, limit, r, f.assemble, |f.data|)
  {
    if refs != [] {
      var init, last := refs[..|refs| - 1], refs[|refs| - 1];
      RunSurvives(env, limit, init, i, f);
      RunKeeps(env, limit, init, i, f);
      StepSurvives(env, limit, last, Run(env, limit, init, i, f));
      assert last in refs;
      assert forall r :: r in init ==> r in refs;
      assert forall r :: r in refs ==> r in init || r == last;
    }
  }

  predicate Covers(env: Env, limit: int64, ref: SegmentRef, p: nat)
    requires limit >= 0
  {
    RefData(env, limit, ref).Ok? && ref.destOffset <= p < ref.destOffset + |RefData(env, limit, ref).value|
  }

  /** The reference writes what `target` has at its destination. */
  predicate Writes(env: Env, limit: int64, ref: SegmentRef, target: bytes)
    requires limit >= 0
  {
    var data := RefData(env, limit, ref);
    && Fine(env, limit, ref, true, |target|)
    && target[ref.destOffset..ref.destOffset + |data.value|] == data.value
  }

  /** Byte p is right, or nothing has been written there yet. */
  predicate RightOrUntouched(env: Env, limit: int64, refs: seq<SegmentRef>, data: bytes, target: bytes, p: nat)
    requires limit >= 0 && p < |data| == |target|
  {
    data[p] == target[p] || (data[p] == 0 && forall r :: r in refs ==> !Covers(env, limit, r, p))
  }

  lemma WrittenByte(env: Env, limit: int64, ref: SegmentRef, data: bytes, target: bytes, p: nat)
    requires limit >= 0 && |data| == |target| && p < |data| && Writes(env, limit, ref, target)
    ensures var segment := RefData(env, limit, ref).value;
      Spliced(data, ref.destOffset, segment)[p] == if Covers(env, limit, ref, p) then target[p] else data[p]
  {
    var segment := RefData(env, limit, ref).value;
    SplicedAt(data, ref.destOffset, segment, p);
    if Covers(env, limit, ref, p) {
      SliceAt(target, ref.destOffset, segment, p);
    }
  }

  lemma SliceAt(d: bytes, lo: nat, x: bytes, p: nat)
    requires lo <= p < lo + |x| <= |d| && d[lo..lo + |x|] == x
    ensures d[p] == x[p - lo]
  {
  }

  lemma {:induction false} RunWrites(env: Env, limit: int64, refs: seq<SegmentRef>, i: nat, f: FileAssembly,
                                     target: bytes)
    requires limit >= 0 && !f.failed && f.assemble && f.data == Zeros(|target|)
    requires forall r :: r in refs ==> r.fileIndex == i && Writes(env, limit, r, target)
    ensures var done := Run(env, limit, refs, i, f);
      && !done.failed && |done.data| == |target|
      && forall p :: 0 <= p < |target| ==> RightOrUntouched(env, limit, refs, done.data, target, p)
  {
    if refs != [] {
      var init, last := refs[..|refs| - 1], refs[|refs| - 1];
      assert forall r :: r in refs <==> r in init || r == last;
      RunWrites(env, limit, init, i, f, target);
      RunKeeps(env, limit, init, i, f);
      var before := Run(env, limit, init, i, f);
      forall p | 0 <= p < |target|
        ensures RightOrUntouched(env, limit, refs, Run(env, limit, refs, i, f).data, target, p)
      {
        WrittenByte(env, limit, last, before.data, target, p);
        assert RightOrUntouched(env, limit, init, before.data, target, p);
      }
    }
  }

  // ---------------------------------------------------------------- what the references of a file write

  /** Segment k as the naive extractor sees it. */
  lemma RefIsNaive(env: Env, limit: int64, a: Archive, i: nat, k: nat)
    requires limit >= 0 && i < |a.files| && Placeable(a, i) && k < |Locations(a.files[i])|
    ensures var ref := RefAt(a, i, k);
      var naive := NaiveSegment(env, limit, a.entries[Locations(a.files[i])[k]]);
      && ref in FileRefs(a, i)
      && ref.destOffset == SizeSum(a.entries, Locations(a.files[i])[..k])
      && (Fine(env, limit, ref, false, 0) <==> naive.Ok?)
      && (naive.Ok? ==> RefData(env, limit, ref) == naive)
  {
    assert FileRefs(a, i)[k] == RefAt(a, i, k);
  }

  lemma Appended(init: seq<bytes>, segment: bytes) returns (segments: seq<bytes>)
    ensures segments == init + [segment] && Joined(segments) == Joined(init) + segment
  {
    segments := init + [segment];
    assert segments[..|init|] == init;
  }

  /** The segments behind the naive extractor's data. */
  lemma {:induction false} SegmentsOf(env: Env, limit: int64, entries: seq<DataEntry>, locations: seq<uint32>,
                                      data: bytes)
    returns (segments: seq<bytes>)
    requires limit >= 0 && InRange(entries, locations) && NaiveData(env, limit, entries, locations) == Some(data)
    ensures |segments| == |locations| && Joined(segments) == data
    ensures forall k :: 0 <= k < |segments| ==> NaiveSegment(env, limit, entries[locations[k]]) == Ok(segments[k])
  {
    if locations == [] {
      segments := [];
    } else {
      var last := |locations| - 1;
      var before := NaiveData(env, limit, entries, locations[..last]).value;
      var segment := NaiveSegment(env, limit, entries[locations[last]]).value;
      var init := SegmentsOf(env, limit, entries, locations[..last], before);
      segments := Appended(init, segment);
      forall k | 0 <= k < |segments|
        ensures NaiveSegment(env, limit, entries[locations[k]]) == Ok(segments[k])
      {
        assert k < last ==> locations[..last][k] == locations[k];
      }
    }
  }

  /** A file that the naive extractor fails has a segment that does not decode. */
  lemma {:induction false} Undecodable(env: Env, limit: int64, entries: seq<DataEntry>, locations: seq<uint32>)
    returns (k: nat)
    requires limit >= 0 && InRange(entries, locations) && NaiveData(env, limit, entries, locations) == None
    ensures k < |locations| && NaiveSegment(env, limit, entries[locations[k]]).Err?
  {
    k := |locations| - 1;
    if NaiveSegment(env, limit, entries[locations[k]]).Ok? {
      k := Undecodable(env, limit, entries, locations[..k]);
    }
  }

  /** The segments of a file, all decoded. */
  predicate AreSegments(env: Env, limit: int64, a: Archive, i: nat, segments: seq<bytes>)
    requires limit >= 0 && i < |a.files| && InRange(a.entries, Locations(a.files[i]))
  {
    && |segments| == |Locations(a.files[i])|
    && forall k :: 0 <= k < |segments| ==>
         NaiveSegment(env, limit, a.entries[Locations(a.files[i])[k]]) == Ok(segments[k])
  }

  lemma SegmentsAreHeld(env: Env, limit: int64, a: Archive, i: nat, segments: seq<bytes>)
    requires limit >= 0 && i < |a.files| && Placeable(a, i) && AreSegments(env, limit, a, i, segments)
    ensures Held(a.entries, Locations(a.files[i]), segments)
  {
    forall k | 0 <= k < |segments| && SizeAt(a.entries, Locations(a.files[i])[k]) != 0
      ensures |segments[k]| == SizeAt(a.entries, Locations(a.files[i])[k])
    {
      assert NaiveSegment(env, limit, a.entries[Locations(a.files[i])[k]]) == Ok(segments[k]);
    }
  }

  lemma NothingStandsBehind(env: Env, limit: int64, a: Archive, i: nat, segments: seq<bytes>)
    requires limit >= 0 && i < |a.files| && Placeable(a, i) && AreSegments(env, limit, a, i, segments)
    ensures LaidOut(env, a, limit, i) <==> NothingBehind(a.entries, Locations(a.files[i]), segments)
  {
    var locations := Locations(a.files[i]);
    forall k | 0 <= k < |segments|
      ensures HasBytes(env, limit, a.entries[locations[k]]) <==> segments[k] != []
    {
      assert NaiveSegment(env, limit, a.entries[locations[k]]) == Ok(segments[k]);
    }
  }

  /** If all segments of file i decode, it is laid out. */
  predicate LaidOutIfDecoded(env: Env, a: Archive, limit: int64, i: nat)
    requires limit >= 0 && i < |a.files|
  {
    Placeable(a, i) && AllDecode(env, a, limit, i) ==> LaidOut(env, a, limit, i)
  }

  /** What LaidOut means: if all segments of a file decode, no two of them share a byte of the
      output, and each starts at its place in the concatenation, exactly if it is laid out. */
  lemma LaidOutIsExact(env: Env, limit: int64, a: Archive, i: nat, segments: seq<bytes>)
    requires limit >= 0 && i < |a.files| && Placeable(a, i) && AreSegments(env, limit, a, i, segments)
    ensures LaidOut(env, a, limit, i) <==> Apart(a.entries, Locations(a.files[i]), segments)
    ensures LaidOut(env, a, limit, i) <==> AtPlaces(a.entries, Locations(a.files[i]), segments)
  {
    SegmentsAreHeld(env, limit, a, i, segments);
    NothingStandsBehind(env, limit, a, i, segments);
    LayoutIsExact(a.entries, Locations(a.files[i]), segments);
  }

  /** An entry that cannot decode to anything: it stores nothing and is not inflated. */
  predicate StoresNothing(entry: DataEntry) {
    entry.file.size == 0 && entry.file.filter != ZlibFilter
  }

  /** A condition that shows without decoding anything: of two entries of the file, the earlier
      declares a size or one of the two stores nothing. */
  predicate Declared(a: Archive, i: nat)
    requires i < |a.files| && InRange(a.entries, Locations(a.files[i]))
  {
    var locations := Locations(a.files[i]);
    forall j, k :: 0 <= j < k < |locations| ==>
      || SizeAt(a.entries, locations[j]) != 0
      || StoresNothing(a.entries[locations[j]]) || StoresNothing(a.entries[locations[k]])
  }

  lemma NothingStored(env: Env, limit: int64, entry: DataEntry)
    requires limit >= 0 && StoresNothing(entry)
    ensures !HasBytes(env, limit, entry)
  {
    var chunk := ChunkData(env, entry.chunk, limit);
    if chunk.Ok? {
      SegmentThreshold(env.codecs, chunk.value, entry.file, limit - |chunk.value|);
    }
  }

  lemma DeclaredIsLaidOut(env: Env, a: Archive, limit: int64, i: nat)
    requires limit >= 0 && i < |a.files| && Placeable(a, i) && Declared(a, i)
    ensures LaidOut(env, a, limit, i)
  {
    var locations := Locations(a.files[i]);
    forall k | 0 <= k < |locations| && StoresNothing(a.entries[locations[k]])
      ensures !HasBytes(env, limit, a.entries[locations[k]])
    {
      NothingStored(env, limit, a.entries[locations[k]]);
    }
  }

  /** The entries that the parser reads declare what they store, so every file of an archive
      that no later pass has changed is laid out. */
  lemma ParsedIsLaidOut(env: Env, a: Archive, limit: int64, i: nat, v: Blocks.Version, compression: Compression,
                        secondary: bytes)
    requires limit >= 0 && i < |a.files| && Placeable(a, i)
    requires Records.Accepted(v, compression, |a.entries|, secondary) == Some(a.entries)
    ensures LaidOut(env, a, limit, i)
  {
    var locations := Locations(a.files[i]);
    Records.ParsedDeclare(v, compression, |a.entries|, secondary);
    forall k | 0 <= k < |locations|
      ensures SizeAt(a.entries, locations[k]) != 0 || StoresNothing(a.entries[locations[k]])
    {
      assert a.entries[locations[k]] in a.entries;
    }
    DeclaredIsLaidOut(env, a, limit, i);
  }

  lemma LaidSegments(env: Env, limit: int64, a: Archive, i: nat, data: bytes) returns (segments: seq<bytes>)
    requires limit >= 0 && i < |a.files| && Placeable(a, i) && LaidOut(env, a, limit, i)
    requires NaiveData(env, limit, a.entries, Locations(a.files[i])) == Some(data)
    ensures AreSegments(env, limit, a, i, segments) && Joined(segments) == data
    ensures Held(a.entries, Locations(a.files[i]), segments)
    ensures AtPlaces(a.entries, Locations(a.files[i]), segments)
  {
    segments := SegmentsOf(env, limit, a.entries, Locations(a.files[i]), data);
    SegmentsAreHeld(env, limit, a, i, segments);
    LaidOutIsExact(env, limit, a, i, segments);
  }

  lemma WritesItsPlace(env: Env, limit: int64, ref: SegmentRef, target: bytes, data: bytes, segment: bytes)
    requires limit >= 0 && RefData(env, limit, ref) == Ok(segment) && Fine(env, limit, ref, false, 0)
    requires data <= target && ref.destOffset + |segment| <= |data|
    requires data[ref.destOffset..ref.destOffset + |segment|] == segment
    ensures Writes(env, limit, ref, target)
  {
    assert target[ref.destOffset..ref.destOffset + |segment|] == data[ref.destOffset..ref.destOffset + |segment|];
  }

  /** Segment k at its destination, with bytes or without. */
  lemma InData(entries: seq<DataEntry>, locations: seq<uint32>, segments: seq<bytes>, k: nat)
    requires Held(entries, locations, segments) && AtPlaces(entries, locations, segments) && k < |segments|
    ensures var dest, data := Dest(entries, locations, k), Joined(segments);
      dest + |segments[k]| <= |data| && data[dest..dest + |segments[k]|] == segments[k]
    ensures segments[k] != [] ==> Dest(entries, locations, k) == |Joined(segments[..k])|
  {
    DestAtMost(entries, locations, segments, k);
    PieceAt(segments, k);
  }

  /** If all segments decode, reference k of the file writes segment k at its place in the
      concatenation. */
  lemma ReferenceOf(env: Env, limit: int64, a: Archive, i: nat, data: bytes, segments: seq<bytes>, k: nat,
                    target: bytes)
    requires limit >= 0 && i < |a.files| && Placeable(a, i) && AreSegments(env, limit, a, i, segments)
    requires Held(a.entries, Locations(a.files[i]), segments) && AtPlaces(a.entries, Locations(a.files[i]), segments)
    requires Joined(segments) == data && k < |segments| && data <= target
    ensures Writes(env, limit, RefAt(a, i, k), target)
    ensures RefAt(a, i, k) in FileRefs(a, i) && RefData(env, limit, RefAt(a, i, k)) == Ok(segments[k])
    ensures RefAt(a, i, k).destOffset == Dest(a.entries, Locations(a.files[i]), k)
  {
    InData(a.entries, Locations(a.files[i]), segments, k);
    RefIsNaive(env, limit, a, i, k);
    WritesItsPlace(env, limit, RefAt(a, i, k), target, data, segments[k]);
  }

  /** The reference that holds byte p of the concatenation. */
  lemma ReferenceWith(env: Env, limit: int64, a: Archive, i: nat, data: bytes, p: nat) returns (r: SegmentRef)
    requires limit >= 0 && i < |a.files| && Placeable(a, i) && LaidOut(env, a, limit, i)
    requires NaiveData(env, limit, a.entries, Locations(a.files[i])) == Some(data) && p < |data|
    ensures r in FileRefs(a, i) && Covers(env, limit, r, p)
  {
    var segments := LaidSegments(env, limit, a, i, data);
    var k := FindPiece(segments, p);
    ReferenceOf(env, limit, a, i, data, segments, k, data);
    InData(a.entries, Locations(a.files[i]), segments, k);
    r := RefAt(a, i, k);
  }

  /** When all segments decode and fit, every reference of the file writes the padded
      concatenation. */
  lemma ReferencesWrite(env: Env, limit: int64, a: Archive, i: nat, target: bytes, data: bytes)
    requires limit >= 0 && i < |a.files| && Placeable(a, i) && LaidOut(env, a, limit, i)
    requires NaiveData(env, limit, a.entries, Locations(a.files[i])) == Some(data) && data <= target
    ensures forall r :: r in FileRefs(a, i) ==> Writes(env, limit, r, target)
  {
    var refs := FileRefs(a, i);
    var segments := LaidSegments(env, limit, a, i, data);
    forall k | 0 <= k < |refs|
      ensures Writes(env, limit, refs[k], target)
    {
      ReferenceOf(env, limit, a, i, data, segments, k, target);
    }
  }

  // ---------------------------------------------------------------- the refinement

  /** The references of file i that Run sees are a permutation of the file's own list. */
  lemma OwnReferencesOnly(env: Env, a: Archive, limit: int64, verifyOnly: bool, i: nat) returns (own: seq<SegmentRef>)
    requires limit >= 0 && i < |a.files|
    ensures Outcomes(env, a, limit, verifyOnly)[i]
         == Run(env, ChunkBudget(a, limit, verifyOnly), own, i, Start(a, limit, verifyOnly, i))
    ensures forall r :: r in own <==> r in FileRefs(a, i)
    ensures forall r :: r in own ==> r.fileIndex == i
  {
    own := OfFile(Flat(GroupsOf(a)), i);
    RunOwn(env, ChunkBudget(a, limit, verifyOnly), Flat(GroupsOf(a)), i, Start(a, limit, verifyOnly, i));
    ExactRegrouping(a);
    OwnIndex(Flat(GroupsOf(a)), i);
    forall r: SegmentRef
      ensures r in own <==> r in FileRefs(a, i)
    {
      assert r in own <==> r in multiset(own);
      assert r in FileRefs(a, i) <==> r in multiset(FileRefs(a, i));
    }
  }

  lemma DataDecodes(env: Env, limit: int64, a: Archive, i: nat, data: bytes)
    requires limit >= 0 && i < |a.files| && InRange(a.entries, Locations(a.files[i]))
    requires NaiveData(env, limit, a.entries, Locations(a.files[i])) == Some(data)
    ensures AllDecode(env, a, limit, i)
  {
    var segments := SegmentsOf(env, limit, a.entries, Locations(a.files[i]), data);
    forall k | 0 <= k < |Locations(a.files[i])|
      ensures NaiveSegment(env, limit, a.entries[Locations(a.files[i])[k]]).Ok?
    {
      assert NaiveSegment(env, limit, a.entries[Locations(a.files[i])[k]]) == Ok(segments[k]);
    }
  }

  /** The references of a file, in whatever order, leave the padded concatenation or a failure. */
  lemma RunIsNaive(env: Env, limit: int64, a: Archive, i: nat, own: seq<SegmentRef>, start: FileAssembly)
    requires limit >= 0 && i < |a.files| && Placeable(a, i) && LaidOutIfDecoded(env, a, limit, i)
    requires forall r :: r in own <==> r in FileRefs(a, i)
    requires forall r :: r in own ==> r.fileIndex == i
    requires !start.failed && start.assemble && start.data == Zeros(start.totalSize)
    ensures var done := Run(env, limit, own, i, start);
      var padded := Padded(NaiveData(env, limit, a.entries, Locations(a.files[i])), start.totalSize);
      (done.failed <==> padded.None?) && (padded.Some? ==> done.data == padded.value)
  {
    var data := NaiveData(env, limit, a.entries, Locations(a.files[i]));
    if data.None? {
      var k := Undecodable(env, limit, a.entries, Locations(a.files[i]));
      RefIsNaive(env, limit, a, i, k);
      OneNotFine(env, limit, a, i, own, start, RefAt(a, i, k));
    } else {
      DataDecodes(env, limit, a, i, data.value);
      if |data.value| <= start.totalSize {
        AllWritten(env, a, limit, i, own, start, data.value);
      } else {
        var r := TooLong(env, a, limit, i, data.value, start.totalSize);
        OneNotFine(env, limit, a, i, own, start, r);
      }
    }
  }

  /** A file that is to be assembled ends with exactly the padded concatenation of its segments,
      or fails, whatever the order of the groups, the sort by offset and the fate of the other
      files. */
  lemma OutcomeIsNaive(env: Env, a: Archive, limit: int64, verifyOnly: bool, i: nat)
    requires limit >= 0 && i < |a.files| && Placeable(a, i)
    requires !Start(a, limit, verifyOnly, i).failed && Start(a, limit, verifyOnly, i).assemble
    requires LaidOutIfDecoded(env, a, ChunkBudget(a, limit, verifyOnly), i)
    ensures var done := Outcomes(env, a, limit, verifyOnly)[i];
      var data := NaiveData(env, ChunkBudget(a, limit, verifyOnly), a.entries, Locations(a.files[i]));
      && (done.failed <==> Padded(data, done.totalSize).None?)
      && (!done.failed ==> Padded(data, done.totalSize) == Some(done.data))
  {
    var rest, start := ChunkBudget(a, limit, verifyOnly), Start(a, limit, verifyOnly, i);
    var own := OwnReferencesOnly(env, a, limit, verifyOnly, i);
    RunKeeps(env, rest, own, i, start);
    RunIsNaive(env, rest, a, i, own, start);
  }

  lemma OneNotFine(env: Env, limit: int64, a: Archive, i: nat, own: seq<SegmentRef>, start: FileAssembly, r: SegmentRef)
    requires limit >= 0 && i < |a.files| && !start.failed
    requires forall r :: r in own <==> r in FileRefs(a, i)
    requires forall r :: r in own ==> r.fileIndex == i
    requires r in FileRefs(a, i) && !Fine(env, limit, r, start.assemble, |start.data|)
    ensures Run(env, limit, own, i, start).failed
  {
    RunSurvives(env, limit, own, i, start);
    assert r in own;
  }

  /** Without any condition on the sizes: a file survives exactly when each of its segments
      decodes on its own and, if there is output, fits at its destination. */
  lemma OutcomeSurvives(env: Env, a: Archive, limit: int64, verifyOnly: bool, i: nat)
    requires limit >= 0 && i < |a.files| && Placeable(a, i) && !Start(a, limit, verifyOnly, i).failed
    ensures var start := Start(a, limit, verifyOnly, i);
      !Outcomes(env, a, limit, verifyOnly)[i].failed <==>
        forall k :: 0 <= k < |Locations(a.files[i])| ==>
          FitsNaively(env, a, ChunkBudget(a, limit, verifyOnly), i, k, start.assemble, start.totalSize)
  {
    var rest, start := ChunkBudget(a, limit, verifyOnly), Start(a, limit, verifyOnly, i);
    var own := OwnReferencesOnly(env, a, limit, verifyOnly, i);
    RunSurvives(env, rest, own, i, start);
    var refs := FileRefs(a, i);
    forall k | 0 <= k < |refs|
      ensures refs[k] in own
      ensures FitsNaively(env, a, rest, i, k, start.assemble, start.totalSize)
         <==> Fine(env, rest, refs[k], start.assemble, |start.data|)
    {
      RefIsNaive(env, rest, a, i, k);
    }
  }

  predicate FitsNaively(env: Env, a: Archive, limit: int64, i: nat, k: nat, assemble: bool, totalSize: uint64)
    requires limit >= 0 && i < |a.files| && InRange(a.entries, Locations(a.files[i])) && k < |Locations(a.files[i])|
  {
    var locations := Locations(a.files[i]);
    var segment := NaiveSegment(env, limit, a.entries[locations[k]]);
    segment.Ok? && (assemble ==> SizeSum(a.entries, locations[..k]) + |segment.value| <= totalSize)
  }

  lemma AllWritten(env: Env, a: Archive, limit: int64, i: nat, own: seq<SegmentRef>, start: FileAssembly, data: bytes)
    requires limit >= 0 && i < |a.files| && Placeable(a, i) && LaidOut(env, a, limit, i)
    requires forall r :: r in own <==> r in FileRefs(a, i)
    requires forall r :: r in own ==> r.fileIndex == i
    requires !start.failed && start.assemble && start.data == Zeros(start.totalSize) && |data| <= start.totalSize
    requires NaiveData(env, limit, a.entries, Locations(a.files[i])) == Some(data)
    ensures var done := Run(env, limit, own, i, start);
      !done.failed && done.data == data + Zeros(start.totalSize - |data|)
  {
    var target := data + Zeros(start.totalSize - |data|);
    ReferencesWrite(env, limit, a, i, target, data);
    RunWrites(env, limit, own, i, start, target);
    var done := Run(env, limit, own, i, start);
    forall p | 0 <= p < |target|
      ensures done.data[p] == target[p]
    {
      assert RightOrUntouched(env, limit, own, done.data, target, p);
      if p < |data| {
        var r := ReferenceWith(env, limit, a, i, data, p);
      }
    }
  }

  /** When the segments together exceed the room, one of them does not fit. */
  lemma TooLong(env: Env, a: Archive, limit: int64, i: nat, data: bytes, room: nat) returns (r: SegmentRef)
    requires limit >= 0 && i < |a.files| && Placeable(a, i) && LaidOut(env, a, limit, i)
    requires NaiveData(env, limit, a.entries, Locations(a.files[i])) == Some(data) && |data| > room
    ensures r in FileRefs(a, i) && !Fine(env, limit, r, true, room)
  {
    r := ReferenceWith(env, limit, a, i, data, |data| - 1);
  }

  // ---------------------------------------------------------------- the report

  predicate InOrder(report: Report) {
    && (forall j, k :: 0 <= j < k < |report.results| ==> report.results[j].fileIndex < report.results[k].fileIndex)
    && (forall j, k :: 0 <= j < k < |report.failures| ==> report.failures[j].fileIndex < report.failures[k].fileIndex)
  }

  /** The report on n files is about those files, each once and in order. */
  lemma {:induction false} ReportInOrder(codecs: Codecs, a: Archive, files: seq<FileAssembly>, verifyOnly: bool, n: nat)
    requires n <= |files| == |a.files|
    requires forall i :: 0 <= i < n ==> FaultKnown(files[i])
    ensures var report := Reported(codecs, a, files, verifyOnly, n);
      && InOrder(report)
      && (forall k :: 0 <= k < |report.results| ==> report.results[k].fileIndex < n)
      && (forall k :: 0 <= k < |report.failures| ==> report.failures[k].fileIndex < n)
  {
    if n > 0 {
      ReportInOrder(codecs, a, files, verifyOnly, n - 1);
    }
  }

  predicate IsResult(codecs: Codecs, a: Archive, files: seq<FileAssembly>, verifyOnly: bool, n: nat, r: FileResult)
    requires n <= |files| == |a.files|
  {
    r.fileIndex < n && Succeeds(codecs, a.files[r.fileIndex], files[r.fileIndex])
    && r.data == if verifyOnly then [] else files[r.fileIndex].data
  }

  predicate IsFailure(codecs: Codecs, a: Archive, files: seq<FileAssembly>, n: nat, i: nat)
    requires n <= |files| == |a.files|
  {
    i < n && !files[i].skip && !Succeeds(codecs, a.files[i], files[i])
  }

  lemma {:induction false} ResultsAreExact(codecs: Codecs, a: Archive, files: seq<FileAssembly>, verifyOnly: bool,
                                           n: nat, r: FileResult)
    requires n <= |files| == |a.files|
    requires forall i :: 0 <= i < n ==> FaultKnown(files[i])
    ensures r in Reported(codecs, a, files, verifyOnly, n).results <==> IsResult(codecs, a, files, verifyOnly, n, r)
  {
    if n > 0 {
      ResultsAreExact(codecs, a, files, verifyOnly, n - 1, r);
    }
  }

  lemma {:induction false} FailuresAreExact(codecs: Codecs, a: Archive, files: seq<FileAssembly>, verifyOnly: bool,
                                            n: nat, i: nat)
    requires n <= |files| == |a.files|
    requires forall i :: 0 <= i < n ==> FaultKnown(files[i])
    ensures (exists fault :: FileFailure(i, fault) in Reported(codecs, a, files, verifyOnly, n).failures)
       <==> IsFailure(codecs, a, files, n, i)
  {
    if n > 0 {
      var before := Reported(codecs, a, files, verifyOnly, n - 1).failures;
      var after := Reported(codecs, a, files, verifyOnly, n).failures;
      FailuresAreExact(codecs, a, files, verifyOnly, n - 1, i);
      assert forall f :: f in after <==> f in before || (after != before && f == after[|after| - 1]);
      if i == n - 1 && after != before {
        assert after[|after| - 1] == FileFailure(i, after[|after| - 1].fault);
      }
    }
  }

  /** The fault that is reported for a file: its own, or that of its final checksum. */
  lemma {:induction false} FaultsAreExact(codecs: Codecs, a: Archive, files: seq<FileAssembly>, verifyOnly: bool,
                                          n: nat, i: nat, fault: Fault)
    requires n <= |files| == |a.files|
    requires forall i :: 0 <= i < n ==> FaultKnown(files[i])
    ensures FileFailure(i, fault) in Reported(codecs, a, files, verifyOnly, n).failures <==>
      && i < n && !files[i].skip
      && if files[i].failed then files[i].fault == Some(fault)
         else FinalFault(codecs, a.files[i], files[i].data, files[i].totalSize) == Some(fault)
  {
    if n > 0 {
      var before := Reported(codecs, a, files, verifyOnly, n - 1).failures;
      var after := Reported(codecs, a, files, verifyOnly, n).failures;
      FaultsAreExact(codecs, a, files, verifyOnly, n - 1, i, fault);
      assert forall f :: f in after <==> f in before || (after != before && f == after[|after| - 1]);
    }
  }

  /** The report has every file with a payload once, as a result exactly when it succeeded. */
  lemma ReportIsExact(codecs: Codecs, a: Archive, files: seq<FileAssembly>, verifyOnly: bool)
    requires |files| == |a.files|
    requires forall i :: 0 <= i < |files| ==> FaultKnown(files[i])
    ensures var report := Reported(codecs, a, files, verifyOnly, |files|);
      && InOrder(report)
      && (forall r :: r in report.results <==> IsResult(codecs, a, files, verifyOnly, |files|, r))
      && (forall i: nat :: (exists fault :: FileFailure(i, fault) in report.failures)
                      <==> IsFailure(codecs, a, files, |files|, i))
  {
    var n := |files|;
    ReportInOrder(codecs, a, files, verifyOnly, n);
    forall r: FileResult
      ensures r in Reported(codecs, a, files, verifyOnly, n).results <==> IsResult(codecs, a, files, verifyOnly, n, r)
    {
      ResultsAreExact(codecs, a, files, verifyOnly, n, r);
    }
    forall i: nat
      ensures (exists fault :: FileFailure(i, fault) in Reported(codecs, a, files, verifyOnly, n).failures)
         <==> IsFailure(codecs, a, files, n, i)
    {
      FailuresAreExact(codecs, a, files, verifyOnly, n, i);
    }
  }

  /** A file is among the results exactly when its outcome succeeds. */
  lemma ResultIsOutcome(env: Env, a: Archive, limit: int64, verifyOnly: bool, r: FileResult)
    requires limit >= 0
    ensures r in Reported(env.codecs, a, Outcomes(env, a, limit, verifyOnly), verifyOnly, |a.files|).results
       <==> IsResult(env.codecs, a, Outcomes(env, a, limit, verifyOnly), verifyOnly, |a.files|, r)
  {
    FaultsAreKnown(env, a, limit, verifyOnly);
    ResultsAreExact(env.codecs, a, Outcomes(env, a, limit, verifyOnly), verifyOnly, |a.files|, r);
  }

  // ---------------------------------------------------------------- the reservation

  /** The output an extraction has to reserve. */
  function Demand(a: Archive, verifyOnly: bool): uint64 {
    Accepted(a, PlacedFiles(a), verifyOnly, |a.files|)
  }

  lemma {:induction false} AcceptedGrows(a: Archive, files: seq<FileAssembly>, verifyOnly: bool, m: nat, n: nat)
    requires m <= n <= |files| == |a.files|
    ensures Accepted(a, files, verifyOnly, m) <= Accepted(a, files, verifyOnly, n)
    decreases n
  {
    if m < n {
      AcceptedGrows(a, files, verifyOnly, m, n - 1);
    }
  }

  /** Nothing overflows uint64 as long as the accepted total stays within a limit. */
  lemma NoOverflow(a: Archive, files: seq<FileAssembly>, verifyOnly: bool, i: nat)
    requires i < |files| == |a.files|
    requires Accepted(a, files, verifyOnly, |files|) <= MAX_INT64
    ensures Wants(a, files, verifyOnly, i) && files[i].totalSize <= MAX_INT64 ==>
      Accepts(a, files, verifyOnly, i, Accepted(a, files, verifyOnly, i))
  {
    AcceptedGrows(a, files, verifyOnly, i, |files|);
  }

  /** Does the reservation cover file i?  Its output fits an int64, and that of all files that
      are to be assembled fits the limit. */
  predicate Covered(a: Archive, limit: int64, verifyOnly: bool, i: nat)
    requires i < |a.files|
  {
    Placed(a, i).totalSize <= MAX_INT64 && Demand(a, verifyOnly) <= limit
  }

  /** How a file starts: one without a payload or with a bad place is out already; one that is
      to be assembled has its buffer exactly if the reservation covers it; and one that is
      verified without a checksum needs none. */
  lemma StartShape(a: Archive, limit: int64, verifyOnly: bool, i: nat)
    requires limit >= 0 && i < |a.files|
    ensures var start := Start(a, limit, verifyOnly, i);
      && start.totalSize == Placed(a, i).totalSize
      && (!Placeable(a, i) ==> start.skip || start.failed)
      && (Placeable(a, i) ==>
            && !start.skip
            && if verifyOnly && a.files[i].checksum.kind == ChecksumNone then !start.failed && !start.assemble
               else (!start.failed <==> Covered(a, limit, verifyOnly, i)) && (!start.failed ==> start.assemble))
  {
    assert Locations(a.files[i])[0] == a.files[i].location;
    if Demand(a, verifyOnly) <= limit {
      NoOverflow(a, PlacedFiles(a), verifyOnly, i);
    }
  }

  // ---------------------------------------------------------------- Extract and Verify

  lemma PassesIfChecked(codecs: Codecs, file: FileEntry, done: FileAssembly, padded: Option<bytes>, d: bytes)
    requires !done.skip && (done.failed <==> padded.None?) && (!done.failed ==> padded == Some(done.data))
    ensures Succeeds(codecs, file, done) && d == done.data <==> Passed(codecs, file, padded, done.totalSize) == Some(d)
  {
  }

  /** A file that starts well and is to be assembled succeeds with d exactly when the naive
      extractor gives d. */
  lemma SucceedsNaively(env: Env, a: Archive, limit: int64, verifyOnly: bool, i: nat, d: bytes)
    requires limit >= 0 && i < |a.files| && Placeable(a, i)
    requires !Start(a, limit, verifyOnly, i).failed && Start(a, limit, verifyOnly, i).assemble
    requires LaidOutIfDecoded(env, a, ChunkBudget(a, limit, verifyOnly), i)
    ensures var done := Outcomes(env, a, limit, verifyOnly)[i];
      Succeeds(env.codecs, a.files[i], done) && d == done.data
      <==> NaiveFile(env, a, ChunkBudget(a, limit, verifyOnly), i, Placed(a, i).totalSize) == Some(d)
  {
    var rest, done := ChunkBudget(a, limit, verifyOnly), Outcomes(env, a, limit, verifyOnly)[i];
    var data := NaiveData(env, rest, a.entries, Locations(a.files[i]));
    OutcomeShape(env, a, limit, verifyOnly, i);
    OutcomeIsNaive(env, a, limit, verifyOnly, i);
    PassesIfChecked(env.codecs, a.files[i], done, Padded(data, done.totalSize), d);
  }

  /** What processing leaves alone. */
  lemma OutcomeShape(env: Env, a: Archive, limit: int64, verifyOnly: bool, i: nat)
    requires limit >= 0 && i < |a.files|
    ensures var start, done := Start(a, limit, verifyOnly, i), Outcomes(env, a, limit, verifyOnly)[i];
      && done.skip == start.skip && done.assemble == start.assemble && |done.data| == |start.data|
      && done.totalSize == start.totalSize == Placed(a, i).totalSize
      && (start.failed ==> done == start)
      && (Placeable(a, i) ==> !done.skip)
  {
    var rest, start := ChunkBudget(a, limit, verifyOnly), Start(a, limit, verifyOnly, i);
    StartShape(a, limit, verifyOnly, i);
    var own := OwnReferencesOnly(env, a, limit, verifyOnly, i);
    RunKeeps(env, rest, own, i, start);
    if start.failed {
      RunFailed(env, rest, own, i, start);
    }
  }

  /** A file that is out from the start never succeeds. */
  lemma NeverSucceeds(env: Env, a: Archive, limit: int64, verifyOnly: bool, i: nat)
    requires limit >= 0 && i < |a.files|
    requires Start(a, limit, verifyOnly, i).skip || Start(a, limit, verifyOnly, i).failed
    ensures !Succeeds(env.codecs, a.files[i], Outcomes(env, a, limit, verifyOnly)[i])
  {
    OutcomeShape(env, a, limit, verifyOnly, i);
  }

  /** What the naive extractor, under what a reservation leaves, gives for file i: nothing if the
      reservation does not cover the file. */
  function NaiveResult(env: Env, a: Archive, limit: int64, verifyOnly: bool, i: nat): Option<bytes>
    requires limit >= 0 && i < |a.files|
  {
    if !Placeable(a, i) || Placed(a, i).totalSize > MAX_INT64 || Demand(a, verifyOnly) > limit then None
    else NaiveFile(env, a, limit - Demand(a, verifyOnly), i, Placed(a, i).totalSize)
  }

  lemma ReservedResult(env: Env, a: Archive, limit: int64, verifyOnly: bool, rest: int64, i: nat, size: uint64)
    requires limit >= 0 && i < |a.files| && Placeable(a, i)
    requires Placed(a, i).totalSize == size <= MAX_INT64 && 0 <= rest == limit - Demand(a, verifyOnly)
    ensures NaiveResult(env, a, limit, verifyOnly, i) == NaiveFile(env, a, rest, i, size)
  {
  }

  lemma UnreservedResult(env: Env, a: Archive, limit: int64, verifyOnly: bool, i: nat)
    requires limit >= 0 && i < |a.files|
    requires !(Placeable(a, i) && Placed(a, i).totalSize <= MAX_INT64 && Demand(a, verifyOnly) <= limit)
    ensures NaiveResult(env, a, limit, verifyOnly, i) == None
  {
  }

  lemma BudgetLeft(a: Archive, limit: int64, verifyOnly: bool)
    requires limit >= 0
    ensures ChunkBudget(a, limit, verifyOnly)
         == if Demand(a, verifyOnly) <= limit then limit - Demand(a, verifyOnly) else limit
  {
  }

  lemma AssembledIsNaive(env: Env, a: Archive, limit: int64, verifyOnly: bool, i: nat, d: bytes)
    requires limit >= 0 && i < |a.files| && !(verifyOnly && a.files[i].checksum.kind == ChecksumNone)
    requires LaidOutIfDecoded(env, a, ChunkBudget(a, limit, verifyOnly), i)
    ensures var done := Outcomes(env, a, limit, verifyOnly)[i];
      Succeeds(env.codecs, a.files[i], done) && d == done.data <==> NaiveResult(env, a, limit, verifyOnly, i) == Some(d)
  {
    StartShape(a, limit, verifyOnly, i);
    if Placeable(a, i) && Covered(a, limit, verifyOnly, i) {
      BudgetLeft(a, limit, verifyOnly);
      ReservedResult(env, a, limit, verifyOnly, ChunkBudget(a, limit, verifyOnly), i, Placed(a, i).totalSize);
      SucceedsNaively(env, a, limit, verifyOnly, i, d);
    } else {
      UnreservedResult(env, a, limit, verifyOnly, i);
      NeverSucceeds(env, a, limit, verifyOnly, i);
    }
  }

  /** What Extract or Verify returns. */
  function Results(env: Env, a: Archive, limit: int64, verifyOnly: bool): seq<FileResult>
    requires limit >= 0
  {
    Reported(env.codecs, a, Outcomes(env, a, limit, verifyOnly), verifyOnly, |a.files|).results
  }

  function Failures(env: Env, a: Archive, limit: int64, verifyOnly: bool): seq<FileFailure>
    requires limit >= 0
  {
    Reported(env.codecs, a, Outcomes(env, a, limit, verifyOnly), verifyOnly, |a.files|).failures
  }

  lemma IsExtracted(env: Env, a: Archive, limit: int64, i: nat, d: bytes)
    requires limit >= 0 && i < |a.files|
    ensures FileResult(i, d) in Results(env, a, limit, false)
      <==> && Succeeds(env.codecs, a.files[i], Outcomes(env, a, limit, false)[i])
           && d == Outcomes(env, a, limit, false)[i].data
  {
    ResultIsOutcome(env, a, limit, false, FileResult(i, d));
  }

  lemma IsVerified(env: Env, a: Archive, limit: int64, i: nat)
    requires limit >= 0 && i < |a.files|
    ensures FileResult(i, []) in Results(env, a, limit, true)
      <==> Succeeds(env.codecs, a.files[i], Outcomes(env, a, limit, true)[i])
  {
    ResultIsOutcome(env, a, limit, true, FileResult(i, []));
  }

  lemma ExtractIsNaive(env: Env, a: Archive, limit: int64, i: nat, d: bytes)
    requires limit >= 0 && i < |a.files| && LaidOutIfDecoded(env, a, ChunkBudget(a, limit, false), i)
    ensures FileResult(i, d) in Results(env, a, limit, false) <==> NaiveResult(env, a, limit, false, i) == Some(d)
  {
    IsExtracted(env, a, limit, i, d);
    AssembledIsNaive(env, a, limit, false, i, d);
  }

  lemma CoveredIsNaive(env: Env, a: Archive, limit: int64, rest: int64, i: nat, size: uint64, d: bytes)
    requires limit >= 0 && i < |a.files| && LaidOutIfDecoded(env, a, ChunkBudget(a, limit, false), i)
    requires Placeable(a, i) && Placed(a, i).totalSize == size <= MAX_INT64 && 0 <= rest == limit - Demand(a, false)
    ensures FileResult(i, d) in Results(env, a, limit, false) <==> NaiveFile(env, a, rest, i, size) == Some(d)
  {
    ReservedResult(env, a, limit, false, rest, i, size);
    ExtractIsNaive(env, a, limit, i, d);
  }

  lemma UncoveredIsLost(env: Env, a: Archive, limit: int64, i: nat, d: bytes)
    requires limit >= 0 && i < |a.files| && LaidOutIfDecoded(env, a, ChunkBudget(a, limit, false), i)
    requires !(Placeable(a, i) && Placed(a, i).totalSize <= MAX_INT64 && Demand(a, false) <= limit)
    ensures FileResult(i, d) !in Results(env, a, limit, false)
  {
    ExtractIsNaive(env, a, limit, i, d);
    UnreservedResult(env, a, limit, false, i);
  }

  /** Grouped extraction refines the naive extractor: file i is returned with data d exactly
      when the reservation covers it and decoding its segments one by one, under what the
      reservation leaves (`rest`), gives d. */
  lemma ExtractRefinesNaive(env: Env, a: Archive, limit: int64, rest: int, i: nat, size: uint64, d: bytes)
    requires limit >= 0 && i < |a.files| && LaidOutIfDecoded(env, a, ChunkBudget(a, limit, false), i)
    requires rest == limit - Demand(a, false) && size == Placed(a, i).totalSize
    ensures FileResult(i, d) in Results(env, a, limit, false) <==>
            Placeable(a, i) && size <= MAX_INT64 && rest >= 0 && NaiveFile(env, a, rest, i, size) == Some(d)
  {
    if Placeable(a, i) && size <= MAX_INT64 && rest >= 0 {
      CoveredIsNaive(env, a, limit, rest, i, size, d);
    } else {
      UncoveredIsLost(env, a, limit, i, d);
    }
  }

  // ---------------------------------------------------------------- files without padding

  /** Segments are never shorter than their entries declare. */
  lemma DataAtLeast(env: Env, a: Archive, limit: int64, i: nat, data: bytes)
    requires limit >= 0 && i < |a.files| && Placeable(a, i)
    requires NaiveData(env, limit, a.entries, Locations(a.files[i])) == Some(data)
    ensures |data| >= SizeSum(a.entries, Locations(a.files[i]))
  {
    var locations := Locations(a.files[i]);
    var segments := SegmentsOf(env, limit, a.entries, locations, data);
    SegmentsAreHeld(env, limit, a, i, segments);
    DestAtMost(a.entries, locations, segments, |segments|);
    assert segments[..|segments|] == segments && locations[..|locations|] == locations;
  }

  /** A file whose output has the size of its locations is never padded. */
  lemma NaiveIsUnpadded(env: Env, a: Archive, limit: int64, i: nat, totalSize: uint64, d: bytes)
    requires limit >= 0 && i < |a.files| && Placeable(a, i) && totalSize == SizeSum(a.entries, Locations(a.files[i]))
    ensures NaiveFile(env, a, limit, i, totalSize) == Some(d)
       <==> && NaiveData(env, limit, a.entries, Locations(a.files[i])) == Some(d) && |d| == totalSize
            && FinalFault(env.codecs, a.files[i], d, totalSize) == None
  {
    var data := NaiveData(env, limit, a.entries, Locations(a.files[i]));
    if data.Some? {
      DataAtLeast(env, a, limit, i, data.value);
      assert data.value + Zeros(0) == data.value;
    }
  }

  lemma ResultSize(env: Env, a: Archive, limit: int64, i: nat, d: bytes)
    requires limit >= 0 && i < |a.files| && Placeable(a, i) && FileResult(i, d) in Results(env, a, limit, false)
    ensures |d| == Placed(a, i).totalSize
  {
    IsExtracted(env, a, limit, i, d);
    OutcomeShape(env, a, limit, false, i);
    StartShape(a, limit, false, i);
  }

  /** Data of the declared size is laid out. */
  lemma ExactIsLaidOut(env: Env, a: Archive, limit: int64, i: nat, data: bytes)
    requires limit >= 0 && i < |a.files| && Placeable(a, i)
    requires NaiveData(env, limit, a.entries, Locations(a.files[i])) == Some(data)
    requires |data| == SizeSum(a.entries, Locations(a.files[i]))
    ensures LaidOut(env, a, limit, i)
  {
    var locations := Locations(a.files[i]);
    var segments := SegmentsOf(env, limit, a.entries, locations, data);
    SegmentsAreHeld(env, limit, a, i, segments);
    assert segments[..|segments|] == segments && locations[..|locations|] == locations;
    SizesAreExact(a.entries, locations, segments, |segments|);
    NothingStandsBehind(env, limit, a, i, segments);
  }

  lemma ReservedIfReturned(env: Env, a: Archive, limit: int64, i: nat, d: bytes)
    requires limit >= 0 && i < |a.files| && NaiveResult(env, a, limit, false, i) == Some(d)
    ensures Placeable(a, i) && Demand(a, false) <= limit
    ensures NaiveFile(env, a, limit - Demand(a, false), i, Placed(a, i).totalSize) == Some(d)
  {
  }

  /** What Extract returns of a laid-out file without padding. */
  lemma LaidOutIsConcatenation(env: Env, a: Archive, limit: int64, i: nat, d: bytes)
    requires limit >= 0 && i < |a.files| && Placeable(a, i) && LaidOut(env, a, ChunkBudget(a, limit, false), i)
    requires Placed(a, i).totalSize == SizeSum(a.entries, Locations(a.files[i]))
    requires FileResult(i, d) in Results(env, a, limit, false)
    ensures NaiveData(env, ChunkBudget(a, limit, false), a.entries, Locations(a.files[i])) == Some(d)
  {
    ExtractIsNaive(env, a, limit, i, d);
    ReservedIfReturned(env, a, limit, i, d);
    BudgetLeft(a, limit, false);
    NaiveIsUnpadded(env, a, ChunkBudget(a, limit, false), i, Placed(a, i).totalSize, d);
  }

  /** A file that Extract returns, and whose size is that of its locations, is the concatenation
      of its segments exactly if it is laid out. */
  lemma ConcatenationIsLayout(env: Env, a: Archive, limit: int64, i: nat, d: bytes)
    requires limit >= 0 && i < |a.files| && Placeable(a, i)
    requires Placed(a, i).totalSize == SizeSum(a.entries, Locations(a.files[i]))
    requires FileResult(i, d) in Results(env, a, limit, false)
    ensures var rest := ChunkBudget(a, limit, false);
      NaiveData(env, rest, a.entries, Locations(a.files[i])) == Some(d) <==> LaidOut(env, a, rest, i)
  {
    var rest := ChunkBudget(a, limit, false);
    if LaidOut(env, a, rest, i) {
      LaidOutIsConcatenation(env, a, limit, i, d);
    } else if NaiveData(env, rest, a.entries, Locations(a.files[i])) == Some(d) {
      ResultSize(env, a, limit, i, d);
      ExactIsLaidOut(env, a, rest, i, d);
    }
  }

  // ---------------------------------------------------------------- Verify

  lemma CheckedIsNaive(env: Env, a: Archive, limit: int64, i: nat)
    requires limit >= 0 && i < |a.files| && a.files[i].checksum.kind != ChecksumNone
    requires LaidOutIfDecoded(env, a, ChunkBudget(a, limit, true), i)
    ensures Succeeds(env.codecs, a.files[i], Outcomes(env, a, limit, true)[i])
       <==> NaiveResult(env, a, limit, true, i).Some?
  {
    var naive := NaiveResult(env, a, limit, true, i);
    AssembledIsNaive(env, a, limit, true, i, Outcomes(env, a, limit, true)[i].data);
    if naive.Some? {
      AssembledIsNaive(env, a, limit, true, i, naive.value);
    }
  }

  /** Verifying a file with a checksum: the reservation covers it and the naive extractor gives
      something for it (see NaiveResult). */
  lemma VerifyChecked(env: Env, a: Archive, limit: int64, i: nat)
    requires limit >= 0 && i < |a.files| && a.files[i].checksum.kind != ChecksumNone
    requires LaidOutIfDecoded(env, a, ChunkBudget(a, limit, true), i)
    ensures FileResult(i, []) in Results(env, a, limit, true) <==> NaiveResult(env, a, limit, true, i).Some?
  {
    IsVerified(env, a, limit, i);
    CheckedIsNaive(env, a, limit, i);
  }

  /** A file that is not assembled survives if its segments decode. */
  lemma UnassembledSurvives(env: Env, a: Archive, limit: int64, verifyOnly: bool, i: nat)
    requires limit >= 0 && i < |a.files| && Placeable(a, i)
    requires !Start(a, limit, verifyOnly, i).failed && !Start(a, limit, verifyOnly, i).assemble
    ensures !Outcomes(env, a, limit, verifyOnly)[i].failed <==> AllDecode(env, a, ChunkBudget(a, limit, verifyOnly), i)
  {
    var rest, start := ChunkBudget(a, limit, verifyOnly), Start(a, limit, verifyOnly, i);
    OutcomeSurvives(env, a, limit, verifyOnly, i);
    forall k | 0 <= k < |Locations(a.files[i])|
      ensures FitsNaively(env, a, rest, i, k, start.assemble, start.totalSize)
         <==> NaiveSegment(env, rest, a.entries[Locations(a.files[i])[k]]).Ok?
    {
    }
  }

  lemma UncheckedIsNaive(env: Env, a: Archive, limit: int64, i: nat)
    requires limit >= 0 && i < |a.files| && a.files[i].checksum.kind == ChecksumNone
    ensures Succeeds(env.codecs, a.files[i], Outcomes(env, a, limit, true)[i])
       <==> Placeable(a, i) && AllDecode(env, a, ChunkBudget(a, limit, true), i)
  {
    StartShape(a, limit, true, i);
    if !Placeable(a, i) {
      NeverSucceeds(env, a, limit, true, i);
    } else {
      UnassembledSurvives(env, a, limit, true, i);
      OutcomeShape(env, a, limit, true, i);
    }
  }

  /** Verifying a file without a checksum: each of its segments decodes on its own.  There is
      no condition on the layout, since nothing is assembled. */
  lemma VerifyUnchecked(env: Env, a: Archive, limit: int64, i: nat)
    requires limit >= 0 && i < |a.files| && a.files[i].checksum.kind == ChecksumNone
    ensures FileResult(i, []) in Results(env, a, limit, true)
      <==> && Placeable(a, i)
           && forall k :: 0 <= k < |Locations(a.files[i])| ==>
                NaiveSegment(env, ChunkBudget(a, limit, true), a.entries[Locations(a.files[i])[k]]).Ok?
  {
    IsVerified(env, a, limit, i);
    UncheckedIsNaive(env, a, limit, i);
  }
}
