/** buildGroups (internal/stream/stream.go): the segments of all files, regrouped by the solid
    chunk they live in, so that each chunk is decoded once. */
module Grouping {
  import opened Bytes
  import opened Format
  import opened Decoding

  datatype Archive = Archive(files: seq<FileEntry>, entries: seq<DataEntry>)

  datatype FileAssembly = FileAssembly(
    data: bytes, totalSize: uint64, assemble: bool, skip: bool, failed: bool, fault: Option<Fault>)

  const EMPTY_ASSEMBLY := FileAssembly([], 0, false, false, false, None)

  datatype SegmentRef = SegmentRef(fileIndex: nat, entry: DataEntry, destOffset: uint64, expectedSize: uint64)

  datatype ChunkGroup = ChunkGroup(chunk: Chunk, refs: seq<SegmentRef>)

  /** markFailure on one file: the first failure stays. */
  function Marked(f: FileAssembly, fault: Fault): FileAssembly {
    if f.failed then f else f.(failed := true, fault := Some(fault))
  }

  // ---------------------------------------------------------------- where a file's segments go

  function Locations(file: FileEntry): seq<uint32> {
    [file.location] + file.additionalLocations
  }

  function SizeAt(entries: seq<DataEntry>, location: uint32): uint64 {
    if location < |entries| then entries[location].uncompressedSize else 0
  }

  /** The total uncompressed size of a list of locations, unbounded. */
  function SizeSum(entries: seq<DataEntry>, locations: seq<uint32>): nat {
    if locations == [] then 0
    else SizeSum(entries, locations[..|locations| - 1]) + SizeAt(entries, locations[|locations| - 1])
  }

  predicate InRange(entries: seq<DataEntry>, locations: seq<uint32>) {
    forall k :: 0 <= k < |locations| ==> locations[k] < |entries|
  }

  /** Does the file have a payload whose segments all exist and whose size is a uint64? */
  predicate Placeable(a: Archive, i: nat)
    requires i < |a.files|
  {
    && InRange(a.entries, Locations(a.files[i]))
    && SizeSum(a.entries, Locations(a.files[i])) <= MAX_UINT64
  }

  /** What buildGroups records for file i. */
  function Placed(a: Archive, i: nat): FileAssembly
    requires i < |a.files|
  {
    if a.files[i].location >= |a.entries| then EMPTY_ASSEMBLY.(skip := true)
    else if !Placeable(a, i) then Marked(EMPTY_ASSEMBLY, CorruptData)
    else if a.files[i].size != 0 then EMPTY_ASSEMBLY.(totalSize := a.files[i].size)
    else EMPTY_ASSEMBLY.(totalSize := SizeSum(a.entries, Locations(a.files[i])))
  }

  lemma {:induction false} PrefixSum(entries: seq<DataEntry>, locations: seq<uint32>, k: nat)
    requires k <= |locations|
    ensures SizeSum(entries, locations[..k]) <= SizeSum(entries, locations)
    ensures k < |locations| ==>
      SizeSum(entries, locations[..k + 1]) == SizeSum(entries, locations[..k]) + SizeAt(entries, locations[k])
  {
    if k < |locations| {
      assert locations[..k + 1][..k] == locations[..k];
      PrefixSum(entries, locations[..|locations| - 1], k);
      assert locations[..|locations| - 1][..k] == locations[..k];
    } else {
      assert locations[..k] == locations;
    }
  }

  /** Segment k of file i: its destination is the size of the segments before it. */
  function RefAt(a: Archive, i: nat, k: nat): SegmentRef
    requires i < |a.files| && Placeable(a, i) && k < |Locations(a.files[i])|
  {
    var locations := Locations(a.files[i]);
    PrefixSum(a.entries, locations, k);
    var entry := a.entries[locations[k]];
    SegmentRef(i, entry, SizeSum(a.entries, locations[..k]), entry.uncompressedSize)
  }

  function FileRefs(a: Archive, i: nat): seq<SegmentRef>
    requires i < |a.files|
  {
    if Placeable(a, i) then
      seq(|Locations(a.files[i])|, k requires 0 <= k < |Locations(a.files[i])| => RefAt(a, i, k))
    else []
  }

  /** The segments of the first n files, in file and location order. */
  function AllRefs(a: Archive, n: nat): seq<SegmentRef>
    requires n <= |a.files|
  {
    if n == 0 then [] else AllRefs(a, n - 1) + FileRefs(a, n - 1)
  }

  // ---------------------------------------------------------------- grouping by chunk

  /** The group of a chunk, or the number of groups if there is none yet. */
  function GroupFor(groups: seq<ChunkGroup>, chunk: Chunk): (g: nat)
    ensures g <= |groups|
    ensures g < |groups| ==> groups[g].chunk == chunk
    ensures forall h :: 0 <= h < g ==> groups[h].chunk != chunk
  {
    if groups == [] then 0
    else if groups[0].chunk == chunk then 0
    else 1 + GroupFor(groups[1..], chunk)
  }

  function AddRef(groups: seq<ChunkGroup>, ref: SegmentRef): seq<ChunkGroup> {
    var g := GroupFor(groups, ref.entry.chunk);
    if g == |groups| then groups + [ChunkGroup(ref.entry.chunk, [ref])]
    else groups[g := groups[g].(refs := groups[g].refs + [ref])]
  }

  function Grouped(refs: seq<SegmentRef>): seq<ChunkGroup> {
    if refs == [] then [] else AddRef(Grouped(refs[..|refs| - 1]), refs[|refs| - 1])
  }

  /** sort.SliceStable by stored offset: r goes behind everything that is not larger. */
  function Inserted(sorted: seq<SegmentRef>, r: SegmentRef): seq<SegmentRef> {
    if sorted == [] || sorted[|sorted| - 1].entry.file.offset <= r.entry.file.offset then sorted + [r]
    else Inserted(sorted[..|sorted| - 1], r) + [sorted[|sorted| - 1]]
  }

  function SortedByOffset(refs: seq<SegmentRef>): seq<SegmentRef> {
    if refs == [] then [] else Inserted(SortedByOffset(refs[..|refs| - 1]), refs[|refs| - 1])
  }

  function SortedGroups(groups: seq<ChunkGroup>): (s: seq<ChunkGroup>)
    ensures |s| == |groups|
    ensures forall g :: 0 <= g < |groups| ==> s[g] == ChunkGroup(groups[g].chunk, SortedByOffset(groups[g].refs))
  {
    seq(|groups|, g requires 0 <= g < |groups| => ChunkGroup(groups[g].chunk, SortedByOffset(groups[g].refs)))
  }

  /** The groups of an archive, in the order in which they are decoded. */
  function GroupsOf(a: Archive): seq<ChunkGroup> {
    SortedGroups(Grouped(AllRefs(a, |a.files|)))
  }

  // ---------------------------------------------------------------- buildGroups itself

  ghost predicate Indexed(groups: seq<ChunkGroup>, index: map<Chunk, nat>) {
    && (forall c :: c in index ==> index[c] < |groups| && groups[index[c]].chunk == c)
    && (forall g :: 0 <= g < |groups| ==> groups[g].chunk in index && index[groups[g].chunk] == g)
  }

  /** The map finds the same group as a search. */
  lemma IndexFinds(groups: seq<ChunkGroup>, index: map<Chunk, nat>, chunk: Chunk)
    requires Indexed(groups, index)
    ensures GroupFor(groups, chunk) == if chunk in index then index[chunk] else |groups|
  {
    var g := GroupFor(groups, chunk);
    if chunk in index {
      assert groups[index[chunk]].chunk == chunk;
    }
  }

  /** First pass over a file's locations: do they exist, and does their size fit uint64? */
  method CheckLocations(a: Archive, i: nat) returns (total: Option<uint64>)
    requires i < |a.files|
    ensures total == if Placeable(a, i) then Some(SizeSum(a.entries, Locations(a.files[i]))) else None
  {
    var locations := Locations(a.files[i]);
    var sum: uint64 := 0;
    for k := 0 to |locations|
      invariant InRange(a.entries, locations[..k])
      invariant sum == SizeSum(a.entries, locations[..k])
    {
      var location := locations[k];
      PrefixSum(a.entries, locations, k);
      PrefixSum(a.entries, locations, k + 1);
      if location >= |a.entries| {
        return None;
      }
      var size := a.entries[location].uncompressedSize;
      if MAX_UINT64 - sum < size {
        return None;
      }
      sum := sum + size;
    }
    assert locations[..|locations|] == locations;
    total := Some(sum);
  }

  lemma GroupedSnoc(refs: seq<SegmentRef>, ref: SegmentRef)
    ensures Grouped(refs + [ref]) == AddRef(Grouped(refs), ref)
  {
    assert (refs + [ref])[..|refs|] == refs;
  }

  /** One reference, through the map from chunks to groups. */
  method AppendRef(groups: seq<ChunkGroup>, index: map<Chunk, nat>, ref: SegmentRef)
    returns (groups': seq<ChunkGroup>, index': map<Chunk, nat>)
    requires Indexed(groups, index)
    ensures Indexed(groups', index') && groups' == AddRef(groups, ref)
  {
    var chunk := ref.entry.chunk;
    IndexFinds(groups, index, chunk);
    groups', index' := groups, index;
    if chunk !in index {
      index' := index[chunk := |groups|];
      groups' := groups + [ChunkGroup(chunk, [])];
      assert [] + [ref] == [ref];
      assert groups'[|groups| := ChunkGroup(chunk, [ref])] == groups + [ChunkGroup(chunk, [ref])];
    }
    var idx := index'[chunk];
    groups' := groups'[idx := groups'[idx].(refs := groups'[idx].refs + [ref])];
  }

  /** The running destination of segment k, and that adding its size stays within uint64. */
  lemma DestinationStep(a: Archive, i: nat, k: nat)
    requires i < |a.files| && Placeable(a, i) && k < |Locations(a.files[i])|
    ensures var locations := Locations(a.files[i]);
      var size := a.entries[locations[k]].uncompressedSize;
      && RefAt(a, i, k).destOffset + size == SizeSum(a.entries, locations[..k + 1]) <= MAX_UINT64
      && RefAt(a, i, k) == SegmentRef(i, a.entries[locations[k]], SizeSum(a.entries, locations[..k]), size)
  {
    PrefixSum(a.entries, Locations(a.files[i]), k);
    PrefixSum(a.entries, Locations(a.files[i]), k + 1);
  }

  lemma FileRefsStep(a: Archive, i: nat, k: nat, before: seq<SegmentRef>)
    requires i < |a.files| && Placeable(a, i) && k < |Locations(a.files[i])|
    ensures before + FileRefs(a, i)[..k + 1] == before + FileRefs(a, i)[..k] + [RefAt(a, i, k)]
  {
    var refs := FileRefs(a, i);
    assert refs[k] == RefAt(a, i, k);
    AppendNext(before, refs, k);
  }

  /** Second pass: one reference per location, appended to the group of its chunk.  The
      destination cannot overflow any more: the first pass has bounded the sum. */
  method AddFile(a: Archive, i: nat, groups: seq<ChunkGroup>, index: map<Chunk, nat>)
    returns (groups': seq<ChunkGroup>, index': map<Chunk, nat>)
    requires i < |a.files| && Placeable(a, i)
    requires Indexed(groups, index) && groups == Grouped(AllRefs(a, i))
    ensures Indexed(groups', index') && groups' == Grouped(AllRefs(a, i + 1))
  {
    groups', index' := groups, index;
    var locations := Locations(a.files[i]);
    var dest: uint64 := 0;
    ghost var before := AllRefs(a, i);
    assert before + FileRefs(a, i)[..0] == before;
    for k := 0 to |locations|
      invariant dest == SizeSum(a.entries, locations[..k])
      invariant Indexed(groups', index')
      invariant groups' == Grouped(before + FileRefs(a, i)[..k])
    {
      var entry := a.entries[locations[k]];
      DestinationStep(a, i, k);
      var ref := SegmentRef(i, entry, dest, entry.uncompressedSize);
      groups', index' := AppendRef(groups', index', ref);
      FileRefsStep(a, i, k, before);
      GroupedSnoc(before + FileRefs(a, i)[..k], ref);
      assert MAX_UINT64 - dest >= entry.uncompressedSize;
      dest := dest + entry.uncompressedSize;
    }
    assert FileRefs(a, i)[..|locations|] == FileRefs(a, i);
  }

  lemma NothingToAdd(a: Archive, i: nat)
    requires i < |a.files| && (a.files[i].location >= |a.entries| || !Placeable(a, i))
    ensures !Placeable(a, i) && AllRefs(a, i + 1) == AllRefs(a, i)
  {
    assert Locations(a.files[i])[0] == a.files[i].location;
  }

  /** One file of the table: its place, and its references if it has one. */
  method VisitFile(a: Archive, i: nat, files: array<FileAssembly>, groups: seq<ChunkGroup>, index: map<Chunk, nat>)
    returns (groups': seq<ChunkGroup>, index': map<Chunk, nat>)
    requires i < |a.files| == files.Length && files[i] == EMPTY_ASSEMBLY
    requires Indexed(groups, index) && groups == Grouped(AllRefs(a, i))
    modifies files
    ensures files[..] == old(files[..])[i := Placed(a, i)]
    ensures Indexed(groups', index') && groups' == Grouped(AllRefs(a, i + 1))
  {
    groups', index' := groups, index;
    var file := a.files[i];
    if file.location >= |a.entries| {
      files[i] := files[i].(skip := true);
      NothingToAdd(a, i);
      return;
    }
    var total := CheckLocations(a, i);
    if total.None? {
      files[i] := Marked(files[i], CorruptData);
      NothingToAdd(a, i);
      return;
    }
    files[i] := files[i].(totalSize := if file.size != 0 then file.size else total.value);
    groups', index' := AddFile(a, i, groups, index);
  }

  /** The file table when the first n files have their place. */
  function PlacedFirst(a: Archive, n: nat): (files: seq<FileAssembly>)
    requires n <= |a.files|
    ensures |files| == |a.files|
  {
    if n == 0 then seq(|a.files|, j => EMPTY_ASSEMBLY)
    else PlacedFirst(a, n - 1)[n - 1 := Placed(a, n - 1)]
  }

  lemma {:induction false} PlacedFirstAt(a: Archive, n: nat, j: nat)
    requires n <= |a.files| && j < |a.files|
    ensures PlacedFirst(a, n)[j] == if j < n then Placed(a, j) else EMPTY_ASSEMBLY
  {
    if n > 0 {
      PlacedFirstAt(a, n - 1, j);
    }
  }

  /** Table, groups and chunk map when both passes are through with the first n files. */
  ghost predicate Visited(a: Archive, n: nat, files: seq<FileAssembly>, groups: seq<ChunkGroup>,
                          index: map<Chunk, nat>) {
    n <= |a.files| && files == PlacedFirst(a, n) && Indexed(groups, index) && groups == Grouped(AllRefs(a, n))
  }

  method VisitNext(a: Archive, i: nat, files: array<FileAssembly>, groups: seq<ChunkGroup>, index: map<Chunk, nat>)
    returns (groups': seq<ChunkGroup>, index': map<Chunk, nat>)
    requires i < |a.files| && Visited(a, i, files[..], groups, index)
    modifies files
    ensures Visited(a, i + 1, files[..], groups', index')
  {
    PlacedFirstAt(a, i, i);
    assert files[i] == files[..][i];
    groups', index' := VisitFile(a, i, files, groups, index);
  }

  /** Both passes over all files, before the groups are sorted. */
  method VisitFiles(a: Archive, files: array<FileAssembly>) returns (groups: seq<ChunkGroup>)
    requires files.Length == |a.files| && files[..] == PlacedFirst(a, 0)
    modifies files
    ensures files[..] == PlacedFirst(a, |a.files|) && groups == Grouped(AllRefs(a, |a.files|))
  {
    groups := [];
    var index: map<Chunk, nat> := map[];
    for i := 0 to |a.files|
      invariant Visited(a, i, files[..], groups, index)
    {
      groups, index := VisitNext(a, i, files, groups, index);
    }
  }

  method BuildGroups(a: Archive, files: array<FileAssembly>) returns (groups: seq<ChunkGroup>)
    requires files.Length == |a.files|
    requires forall i :: 0 <= i < files.Length ==> files[i] == EMPTY_ASSEMBLY
    modifies files
    ensures forall i :: 0 <= i < files.Length ==> files[i] == Placed(a, i)
    ensures groups == GroupsOf(a)
  {
    groups := VisitFiles(a, files);
    forall i | 0 <= i < files.Length
      ensures files[i] == Placed(a, i)
    {
      PlacedFirstAt(a, |a.files|, i);
      assert files[i] == files[..][i];
    }
    groups := SortedGroups(groups);
  }
}
