/** Extracting what the Galaxy pass leaves: a start is returned as its inflated parts.  And the
    two archives on which parts get in each other's way. */
module GalaxyExtraction {
  import opened Bytes
  import opened Format
  import opened Calls
  import opened GalaxyText
  import opened Galaxy
  import opened GalaxyLaws
  import opened GalaxySizes
  import opened Decoding
  import opened Grouping
  import opened Placement
  import opened Extraction
  import opened Refinement
  import Blocks
  import Records
  import Slices

  /** The archive that is extracted after the pass. */
  ghost function AppliedArchive(a: GogArchive): Archive {
    Archive(Applied(a).files, Applied(a).entries)
  }

  // ---------------------------------------------------------------- a start and its parts

  /** A segment behind the zlib filter is the inflated range of its chunk. */
  lemma SegmentIsInflated(env: Env, limit: int64, entry: DataEntry)
    requires limit >= 0 && entry.file.filter == ZlibFilter && NaiveSegment(env, limit, entry).Ok?
    ensures var chunk, file := FreeChunk(env, entry.chunk), entry.file;
      && chunk.Some? && file.offset + file.size <= |chunk.value|
      && var output := env.codecs.inflate(chunk.value[file.offset..file.offset + file.size]);
         output.Some? && NaiveSegment(env, limit, entry) == Ok(output.value.data)
  {
    EntryThreshold(env, limit, entry);
  }

  lemma {:induction false} PartIsZlib(entry: DataEntry, ms: seq<Marks>, n: nat, i: nat, k: nat)
    requires i < k <= |ms| && PartSize(ms, n, i).Some?
    ensures EntryAfter(entry, ms, n, k, ms[i].location).file.filter == ZlibFilter
  {
    if i < k - 1 {
      PartIsZlib(entry, ms, n, i, k - 1);
    }
  }

  lemma {:induction false} LaterIsPart(ms: seq<Marks>, n: nat, k: nat, s: nat, l: uint32) returns (i: nat)
    requires k <= |ms| && l in LaterLocations(ms, n, k, s)
    ensures i < k && PartOf(ms, n, i, s) && ms[i].location == l
  {
    if l in LaterLocations(ms, n, k - 1, s) {
      i := LaterIsPart(ms, n, k - 1, s, l);
    } else {
      i := k - 1;
    }
  }

  /** Everything at the locations of a start is inflated. */
  lemma StartIsZlib(a: GogArchive, s: nat, l: uint32)
    requires s < |a.files| && Countable(a, s) && l in Locations(Applied(a).files[s])
    ensures l < |Applied(a).entries| && Applied(a).entries[l].file.filter == ZlibFilter
  {
    var ms, n := AllMarks(a.files), |a.entries|;
    PartsAreKept(a, s);
    StartMeansGalaxy(a, s, s);
    var i := s;
    if l != ms[s].location {
      i := LaterIsPart(ms, n, |ms|, s, l);
    }
    PartIsZlib(a.entries[l], ms, n, i, |ms|);
  }

  lemma CoveredUnpadded(env: Env, a: Archive, limit: int64, rest: int64, i: nat, size: uint64, d: bytes)
    requires limit >= 0 && i < |a.files| && Placeable(a, i)
    requires LaidOutIfDecoded(env, a, ChunkBudget(a, limit, false), i)
    requires Placed(a, i).totalSize == size == SizeSum(a.entries, Locations(a.files[i])) && size <= MAX_INT64
    requires 0 <= rest == limit - Demand(a, false)
    ensures FileResult(i, d) in Results(env, a, limit, false)
      <==> && NaiveData(env, rest, a.entries, Locations(a.files[i])) == Some(d)
           && |d| == size && FinalFault(env.codecs, a.files[i], d, size) == None
  {
    CoveredIsNaive(env, a, limit, rest, i, size, d);
    NaiveIsUnpadded(env, a, rest, i, size, d);
  }

  /** A file whose Size is the size of its locations is extracted as their concatenation. */
  lemma ExtractedUnpadded(env: Env, a: Archive, limit: int64, i: nat, d: bytes)
    requires limit >= 0 && i < |a.files| && Placeable(a, i)
    requires LaidOutIfDecoded(env, a, ChunkBudget(a, limit, false), i)
    requires Placed(a, i).totalSize == a.files[i].size == SizeSum(a.entries, Locations(a.files[i]))
    ensures FileResult(i, d) in Results(env, a, limit, false)
      <==> && a.files[i].size <= MAX_INT64 && Demand(a, false) <= limit
           && NaiveData(env, limit - Demand(a, false), a.entries, Locations(a.files[i])) == Some(d)
           && |d| == a.files[i].size && FinalFault(env.codecs, a.files[i], d, a.files[i].size) == None
  {
    var size, demand := a.files[i].size, Demand(a, false);
    if size <= MAX_INT64 && demand <= limit {
      CoveredUnpadded(env, a, limit, limit - demand, i, size, d);
    } else {
      UncoveredIsLost(env, a, limit, i, d);
    }
  }

  /** What the pass leaves of a start: a file that can be extracted, whose locations are those
      of its parts in order, all of them inflated. */
  lemma StartAsLeft(a: GogArchive, s: nat)
    requires s < |a.files| && Countable(a, s)
    ensures var b := AppliedArchive(a);
      var ms, n := AllMarks(a.files), |a.entries|;
      && |b.files| == |a.files| && |b.entries| == n && Placeable(b, s)
      && Locations(b.files[s]) == PartLocations(ms, n, |ms|, s)
      && Placed(b, s).totalSize == b.files[s].size == SizeSum(b.entries, Locations(b.files[s]))
      && (forall l :: l in Locations(b.files[s]) ==> l < n && b.entries[l].file.filter == ZlibFilter)
  {
    PartsAreKept(a, s);
    SizeIsConserved(a, s);
    ExtractAgreesOnSize(a, s);
    forall l | l in Locations(Applied(a).files[s])
      ensures l < |Applied(a).entries| && Applied(a).entries[l].file.filter == ZlibFilter
    {
      StartIsZlib(a, s, l);
    }
  }

  /** Extracting an applied archive returns a start with exactly its parts: the data d is the
      concatenation of the segments at the locations that StartAsLeft describes, has the Size of
      the start, and passes its checksum. */
  lemma StartIsItsParts(env: Env, a: GogArchive, b: Archive, limit: int64, s: nat, d: bytes)
    requires limit >= 0 && s < |a.files| && s < |b.files|
    requires LaidOutIfDecoded(env, b, ChunkBudget(b, limit, false), s)
    requires Countable(a, s) && b == AppliedArchive(a)
    ensures Placeable(b, s)
    ensures FileResult(s, d) in Results(env, b, limit, false)
      <==> && b.files[s].size <= MAX_INT64 && Demand(b, false) <= limit
           && NaiveData(env, limit - Demand(b, false), b.entries, Locations(b.files[s])) == Some(d)
           && |d| == b.files[s].size && FinalFault(env.codecs, b.files[s], d, b.files[s].size) == None
  {
    StartAsLeft(a, s);
    ExtractedUnpadded(env, b, limit, s, d);
  }

  // ---------------------------------------------------------------- an installer with one group

  function QuotedList(args: seq<string>): ArgList
    requires args != []
  {
    if |args| == 1 then Last(QuotedArg("", args[0], ""))
    else ArgList.More(QuotedArg("", args[0], ""), QuotedList(args[1..]))
  }

  lemma {:induction false} QuotedListIs(args: seq<string>)
    requires args != []
    ensures WellFormedArgs(QuotedList(args)) && Values(QuotedList(args)) == args
  {
    if |args| > 1 {
      QuotedListIs(args[1..]);
      assert args == [args[0]] + args[1..];
    }
  }

  /** The text of a hook that calls name. */
  function Hook(name: string, args: seq<string>): string
    requires args != []
  {
    Printed(Call("", "", QuotedList(args), "", None), name)
  }

  lemma HookParses(name: string, args: seq<string>)
    requires args != [] && PlainToken(name, true)
    ensures ParsedCall(Hook(name, args), name) == args
  {
    QuotedListIs(args);
    ParsesPrinted(Call("", "", QuotedList(args), "", None), name);
  }

  lemma NoCall(name: string)
    requires name != ""
    ensures ParsedCall("", name) == []
  {
  }

  const START: string := "before_install"
  const PART: string := "after_install"

  lemma PlainNames()
    ensures PlainToken(START, true) && PlainToken(PART, true)
  {
  }

  /** A start that declares two parts, and the file behind it. */
  function TwoParts(x: string, y: string, l: uint32, entries: seq<DataEntry>): GogArchive {
    GogArchive(
      [FileEntry("a", "", "", "", Hook(START, ["", "", "2"]), Hook(PART, ["", "", x]),
                 0, [], 0, NO_CHECKSUM, false, false),
       FileEntry("b", "", "", "", "", Hook(PART, ["", "", y]), l, [], 0, NO_CHECKSUM, false, false)],
      entries, [], [], "")
  }

  function TwoMarks(x: string, y: string, l: uint32): seq<Marks> {
    [Marks(["", "", "2"], ["", "", x], 0), Marks([], ["", "", y], l)]
  }

  lemma HookInfo(file: FileEntry, start: seq<string>, part: seq<string>)
    requires start != [] ==> file.beforeInstall == Hook(START, start)
    requires start == [] ==> file.beforeInstall == ""
    requires part != [] && file.afterInstall == Hook(PART, part)
    ensures StartInfo(file) == start && PartInfo(file) == part
  {
    PlainNames();
    HookParses(PART, part);
    if start == [] {
      NoCall(START);
      NoCall("before_install_dependency");
    } else {
      HookParses(START, start);
    }
  }

  lemma HookMarks(file: FileEntry, start: seq<string>, part: seq<string>, l: uint32)
    requires file.beforeInstall == if start == [] then "" else Hook(START, start)
    requires part != [] && file.afterInstall == Hook(PART, part) && file.location == l
    ensures MarksOf(file) == Marks(start, part, l)
  {
    HookInfo(file, start, part);
  }

  lemma MarksOfTwo(x: string, y: string, l: uint32, entries: seq<DataEntry>)
    ensures AllMarks(TwoParts(x, y, l, entries).files) == TwoMarks(x, y, l)
  {
    var files := TwoParts(x, y, l, entries).files;
    HookMarks(files[0], ["", "", "2"], ["", "", x], 0);
    HookMarks(files[1], [], ["", "", y], l);
    AreTwo(AllMarks(files), TwoMarks(x, y, l));
  }

  lemma AreTwo(ms: seq<Marks>, two: seq<Marks>)
    requires |ms| == |two| == 2 && ms[0] == two[0] && ms[1] == two[1]
    ensures ms == two
  {
  }

  lemma Digit(s: string, d: nat)
    requires |s| == 1 && d < 10 && s[0] as int == '0' as int + d
    ensures ParsedUint(s) == Some(d)
  {
    assert s[..0] == "";
    assert DigitsValue(s) == d;
  }

  /** Both files are parts of the group. */
  lemma GroupOfTwo(x: string, y: string, l: uint32, n: nat, u: uint64, v: uint64)
    requires ParsedUint(x) == Some(u) && ParsedUint(y) == Some(v) && n > 0 && l < n
    ensures var ms := TwoMarks(x, y, l);
      && PartSize(ms, n, 0) == Some(u) && PartSize(ms, n, 1) == Some(v)
      && PartOf(ms, n, 0, 0) && PartOf(ms, n, 1, 0)
      && TakenSum(ms, n, 2, 0) == u + v
      && LocationsAfter([], ms, n, 2, 0) == [l]
  {
    var ms := TwoMarks(x, y, l);
    Digit("2", 2);
    assert ControlAt(ms, n, 0) == Control(Some(0), 2);
    assert PartSize(ms, n, 0) == Some(u);
    assert ControlAt(ms, n, 1) == Control(Some(0), 1);
    assert PartSize(ms, n, 1) == Some(v);
    assert TakenSum(ms, n, 1, 0) == u;
    assert LocationsAfter([], ms, n, 1, 0) == [];
    assert [] + [l] == [l];
  }

  lemma StartOfTwo(file: FileEntry, x: string, y: string, l: uint32, n: nat, u: uint64, v: uint64)
    requires ParsedUint(x) == Some(u) && ParsedUint(y) == Some(v) && n > 0 && l < n && u + v <= MAX_UINT64
    requires file.additionalLocations == [] && file.location == 0
    ensures var f := FileAfter(file, TwoMarks(x, y, l), n, 2, 0);
      f.size == u + v && Locations(f) == [0, l] && f.checksum == NO_CHECKSUM
  {
    GroupOfTwo(x, y, l, n, u, v);
    assert ParsedMD5("") == None;
    assert [0] + [l] == [0, l];
  }

  lemma PartOfTwo(file: FileEntry, x: string, y: string, l: uint32, n: nat, u: uint64, v: uint64)
    requires ParsedUint(x) == Some(u) && ParsedUint(y) == Some(v) && n > 0 && l < n
    requires file.additionalLocations == [] && file.location == l
    ensures var f := FileAfter(file, TwoMarks(x, y, l), n, 2, 1);
      f.size == file.size && Locations(f) == [l]
  {
    GroupOfTwo(x, y, l, n, u, v);
    NothingBefore([], TwoMarks(x, y, l), n, 1, 1);
    assert LocationsAfter([], TwoMarks(x, y, l), n, 2, 1) == [];
  }

  lemma EntriesOfTwo(entries: seq<DataEntry>, x: string, y: string, l: uint32, u: uint64, v: uint64)
    requires ParsedUint(x) == Some(u) && ParsedUint(y) == Some(v) && l < |entries|
    ensures EntryAfter(entries[l], TwoMarks(x, y, l), |entries|, 2, l) == AsPart(entries[l], v)
    ensures l != 0 ==> EntryAfter(entries[0], TwoMarks(x, y, l), |entries|, 2, 0) == AsPart(entries[0], u)
  {
    GroupOfTwo(x, y, l, |entries|, u, v);
    assert EntryAfter(entries[0], TwoMarks(x, y, l), |entries|, 1, 0) == AsPart(entries[0], u);
  }

  /** What the pass leaves of the two files. */
  lemma AppliedTwo(x: string, y: string, l: uint32, entries: seq<DataEntry>, u: uint64, v: uint64)
    requires ParsedUint(x) == Some(u) && ParsedUint(y) == Some(v) && l < |entries| && u + v <= MAX_UINT64
    ensures var b := Applied(TwoParts(x, y, l, entries));
      && |b.files| == 2 && |b.entries| == |entries|
      && b.files[0].size == u + v && Locations(b.files[0]) == [0, l] && b.files[0].checksum == NO_CHECKSUM
      && b.files[1].size == 0 && Locations(b.files[1]) == [l]
      && b.entries[l] == AsPart(entries[l], v)
      && (l != 0 ==> b.entries[0] == AsPart(entries[0], u))
  {
    var a := TwoParts(x, y, l, entries);
    var n := |entries|;
    MarksOfTwo(x, y, l, entries);
    GroupOfTwo(x, y, l, n, u, v);
    StartMeansGalaxy(a, 0, 0);
    StartOfTwo(a.files[0], x, y, l, n, u, v);
    PartOfTwo(a.files[1], x, y, l, n, u, v);
    EntriesOfTwo(entries, x, y, l, u, v);
    var parts := PartsApplied(a.files, n);
    ConstrainedKeeps(parts[0], AllLanguages(parts));
    ConstrainedKeeps(parts[1], AllLanguages(parts));
  }

  // ---------------------------------------------------------------- parts that share an entry

  /** A digest for every byte string, and an entry with it. */
  const DIGEST: Checksum := Checksum(ChecksumSHA1, Zeros(20))

  const PLAIN_ENTRY: DataEntry :=
    DataEntry(Chunk(0, 0, 0, 0, 2, Stored, Plaintext), StoredFile(0, 1, DIGEST, NoFilter), 1)

  /** Two parts of sizes 5 and 7 in one data entry. */
  function SharedEntry(): GogArchive {
    TwoParts("5", "7", 0, [PLAIN_ENTRY])
  }

  lemma TwiceSeven(entries: seq<DataEntry>)
    requires |entries| == 1 && entries[0].uncompressedSize == 7
    ensures SizeSum(entries, [0, 0]) == 14
  {
    SizeSnoc(entries, [], 0);
    SizeSnoc(entries, [0], 0);
    assert [] + [0] == [0] && [0] + [0] == [0, 0];
  }

  /** With a shared entry sizes are not conserved: it keeps the last size and stands twice among
      the locations, 14 bytes in all, while the Size of the start is 12. */
  lemma SharedEntryMiscounts()
    ensures var b := Applied(SharedEntry());
      && |b.files| == 2 && b.files[0].size == 12
      && SizeSum(b.entries, Locations(b.files[0])) == 14
  {
    Digit("5", 5);
    Digit("7", 7);
    AppliedTwo("5", "7", 0, [PLAIN_ENTRY], 5, 7);
    TwiceSeven(Applied(SharedEntry()).entries);
  }

  // ---------------------------------------------------------------- parts that declare no size

  /** The same byte range one byte later. */
  const NEXT_ENTRY: DataEntry :=
    DataEntry(Chunk(0, 0, 0, 0, 2, Stored, Plaintext), StoredFile(1, 1, DIGEST, NoFilter), 1)

  /** Two parts of sizes 0 and 1, in entries of one stored byte each. */
  function Undeclared(): GogArchive {
    TwoParts("0", "1", 1, [PLAIN_ENTRY, NEXT_ENTRY])
  }

  /** What Apply leaves of it. */
  predicate IsUndeclared(b: Archive) {
    && |b.files| == 2 && |b.entries| == 2
    && b.files[0].size == 1 && Locations(b.files[0]) == [0, 1] && b.files[0].checksum == NO_CHECKSUM
    && b.files[1].size == 0 && Locations(b.files[1]) == [1]
    && b.entries[0] == AsPart(PLAIN_ENTRY, 0) && b.entries[1] == AsPart(NEXT_ENTRY, 1)
  }

  lemma UndeclaredApplied()
    ensures IsUndeclared(AppliedArchive(Undeclared()))
  {
    Digit("0", 0);
    Digit("1", 1);
    AppliedTwo("0", "1", 1, [PLAIN_ENTRY, NEXT_ENTRY], 0, 1);
  }

  predicate CanBeParsed(entries: seq<DataEntry>) {
    forall e :: e in entries ==> Records.Representable(Blocks.Version(6, 0, 0), Stored, e)
  }

  lemma EntriesAreParsed()
    ensures CanBeParsed(Undeclared().entries)
  {
  }

  /** A stored chunk of two bytes, an inflate that copies, and a digest that always agrees. */
  const TWO_BYTES: Env := Env(
    Slices.Device(CHUNK_MAGIC + [7, 8], Slices.ShortEof), Slices.Layout(0, false), None,
    Codecs((_, _) => BadHeader, raw => Some(Output(raw, true)), (_, _) => DIGEST.data))

  lemma TwoByteChunk(limit: int64)
    requires limit >= 2
    ensures ChunkData(TWO_BYTES, PLAIN_ENTRY.chunk, limit) == Ok([7, 8])
  {
    var s := Slices.EmbeddedStream(TWO_BYTES.r, 0);
    assert s.data[..4] == CHUNK_MAGIC && s.data[4..] == [7, 8];
    assert Limited(Slices.Stream(s.data[4..], s.end), 2) == Slices.Stream([7, 8], Slices.Eof);
  }

  lemma OneSegment(limit: int64, k: nat)
    requires limit >= 4 && k < 2
    ensures NaiveSegment(TWO_BYTES, limit, AsPart(if k == 0 then PLAIN_ENTRY else NEXT_ENTRY, k)) == Ok([7 + k as byte])
  {
    TwoByteChunk(limit);
    assert [7, 8][0..1] == [7] && [7, 8][1..2] == [8];
  }

  lemma TwoSegments(b: Archive, limit: int64)
    requires IsUndeclared(b) && limit >= 4
    ensures NaiveSegment(TWO_BYTES, limit, b.entries[0]) == Ok([7])
    ensures NaiveSegment(TWO_BYTES, limit, b.entries[1]) == Ok([8])
    ensures NaiveData(TWO_BYTES, limit, b.entries, [0, 1]) == Some([7, 8])
  {
    OneSegment(limit, 0);
    OneSegment(limit, 1);
    assert [0, 1][..1] == [0] && [0][..0] == [];
    assert NaiveData(TWO_BYTES, limit, b.entries, [0]) == Some([] + [7]);
    assert [] + [7] + [8] == [7, 8];
  }

  lemma UndeclaredSums(entries: seq<DataEntry>)
    requires |entries| == 2 && entries[0].uncompressedSize == 0 && entries[1].uncompressedSize == 1
    ensures SizeSum(entries, []) == 0 && SizeSum(entries, [0]) == 0
    ensures SizeSum(entries, [1]) == 1 && SizeSum(entries, [0, 1]) == 1
  {
    var none: seq<uint32> := [];
    SizeSnoc(entries, none, 0);
    SizeSnoc(entries, none, 1);
    SizeSnoc(entries, [0], 1);
    assert none + [0] == [0] && none + [1] == [1] && [0] + [1] == [0, 1];
  }

  lemma UndeclaredPlaced(b: Archive)
    requires IsUndeclared(b)
    ensures Placeable(b, 0) && Placed(b, 0).totalSize == 1 && Demand(b, false) == 2
  {
    UndeclaredSums(b.entries);
    assert Locations(b.files[0])[0] == b.files[0].location && Locations(b.files[1])[0] == b.files[1].location;
    var files := PlacedFiles(b);
    assert files[0] == Placed(b, 0) == EMPTY_ASSEMBLY.(totalSize := 1);
    assert files[1] == Placed(b, 1) == EMPTY_ASSEMBLY.(totalSize := 1);
    assert Accepted(b, files, false, 1) == 1;
  }

  lemma BothFit(b: Archive)
    requires IsUndeclared(b) && Placeable(b, 0)
    ensures forall k :: 0 <= k < 2 ==> FitsNaively(TWO_BYTES, b, 98, 0, k, true, 1)
  {
    UndeclaredSums(b.entries);
    TwoSegments(b, 98);
    assert [0, 1][..1] == [0] && [0, 1][..0] == [];
  }

  lemma Overlaps(b: Archive) returns (d: bytes)
    requires IsUndeclared(b)
    ensures |d| == 1 && FileResult(0, d) in Results(TWO_BYTES, b, 100, false)
  {
    UndeclaredPlaced(b);
    BothFit(b);
    BudgetLeft(b, 100, false);
    StartShape(b, 100, false, 0);
    OutcomeSurvives(TWO_BYTES, b, 100, false, 0);
    var own := OwnReferencesOnly(TWO_BYTES, b, 100, false, 0);
    RunKeeps(TWO_BYTES, 98, own, 0, Start(b, 100, false, 0));
    d := Outcomes(TWO_BYTES, b, 100, false)[0].data;
    IsExtracted(TWO_BYTES, b, 100, 0, d);
  }

  /** A part that declares size 0 and holds a byte, in an installer whose entries can come out of
      the parser: both segments go to byte 0, so the file is returned with one byte, while the
      concatenation has two. */
  lemma UndeclaredSizesOverlap() returns (b: Archive)
    ensures CanBeParsed(Undeclared().entries)
    ensures IsUndeclared(b) && InRange(b.entries, Locations(b.files[0]))
    ensures exists d :: |d| == 1 && FileResult(0, d) in Results(TWO_BYTES, b, 100, false)
    ensures Demand(b, false) == 2 && NaiveData(TWO_BYTES, 98, b.entries, Locations(b.files[0])) == Some([7, 8])
    ensures b == AppliedArchive(Undeclared())
  {
    EntriesAreParsed();
    b := AppliedArchive(Undeclared());
    UndeclaredApplied();
    UndeclaredPlaced(b);
    TwoSegments(b, 98);
    var d := Overlaps(b);
  }
}
