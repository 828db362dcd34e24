/** Extract (internal/stream/stream.go): reserve the output, decode every needed chunk once
    under what is left of the memory budget, cut the segments out of it and put them into the
    files, and report each file's result or first failure. */
module Extraction {
  import opened Bytes
  import opened Format
  import opened Decoding
  import opened Grouping
  import opened Regrouping

  // ---------------------------------------------------------------- the memory budget

  class MemoryBudget {
    const limit: int64
    var used: int64

    // How often a reservation was refused, and how often a release asked for more than was
    // reserved (which the source answers by resetting the counter to zero).
    ghost var refused: nat
    ghost var clamped: nat

    ghost predicate Valid()
      reads this
    {
      0 <= used <= limit
    }

    constructor (limit: int64)
      requires limit >= 0
      ensures Valid() && this.limit == limit && used == 0 && refused == 0 && clamped == 0
    {
      this.limit, used, refused, clamped := limit, 0, 0, 0;
    }

    function Available(): (n: int64)
      requires Valid()
      reads this
      ensures n == if limit <= used then 0 else limit - used
    {
      if limit <= used then 0 else limit - used
    }

    method Reserve(n: uint64) returns (ok: bool)
      requires Valid()
      modifies this
      ensures Valid() && ok == (n <= limit - old(used))
      ensures used == if ok then old(used) + n else old(used)
      ensures refused == if ok then old(refused) else old(refused) + 1
      ensures clamped == old(clamped)
    {
      if n > Available() {
        refused := refused + 1;
        return false;
      }
      used := used + n;
      ok := true;
    }

    method Release(n: uint64)
      requires Valid()
      modifies this
      ensures Valid() && used == if n >= old(used) then 0 else old(used) - n
      ensures clamped == if n > old(used) then old(clamped) + 1 else old(clamped)
      ensures refused == old(refused)
    {
      clamped := if n > used then clamped + 1 else clamped;
      if n >= used {
        used := 0;
        return;
      }
      used := used - n;
    }
  }

  // ---------------------------------------------------------------- reserving the output

  /** Is file i to be assembled?  Verifying a file without a checksum needs no output. */
  predicate Wants(a: Archive, files: seq<FileAssembly>, verifyOnly: bool, i: nat)
    requires i < |files| == |a.files|
  {
    && !files[i].skip && !files[i].failed
    && !(verifyOnly && a.files[i].checksum.kind == ChecksumNone)
  }

  /** The output size accepted among the first n files, each taken if the sum stays a uint64. */
  function Accepted(a: Archive, files: seq<FileAssembly>, verifyOnly: bool, n: nat): (total: uint64)
    requires n <= |files| == |a.files|
  {
    if n == 0 then 0
    else
      var before := Accepted(a, files, verifyOnly, n - 1);
      if Accepts(a, files, verifyOnly, n - 1, before) then before + files[n - 1].totalSize else before
  }

  predicate Accepts(a: Archive, files: seq<FileAssembly>, verifyOnly: bool, i: nat, before: uint64)
    requires i < |files| == |a.files|
  {
    && Wants(a, files, verifyOnly, i)
    && files[i].totalSize <= MAX_INT64
    && before + files[i].totalSize <= MAX_UINT64
  }

  function Considered(a: Archive, files: seq<FileAssembly>, verifyOnly: bool, i: nat): FileAssembly
    requires i < |files| == |a.files|
  {
    if !Wants(a, files, verifyOnly, i) then files[i]
    else if Accepts(a, files, verifyOnly, i, Accepted(a, files, verifyOnly, i)) then files[i].(assemble := true)
    else Marked(files[i], LimitExceeded).(assemble := false)
  }

  /** allocateFileBuffers on file i. */
  function Allocated(a: Archive, files: seq<FileAssembly>, verifyOnly: bool, limit: int64, i: nat): FileAssembly
    requires i < |files| == |a.files|
  {
    var f := Considered(a, files, verifyOnly, i);
    if Accepted(a, files, verifyOnly, |files|) > limit && f.assemble
    then Marked(f, LimitExceeded).(assemble := false)
    else f
  }

  /** What the budget holds for the whole extraction. */
  function Reserved(a: Archive, files: seq<FileAssembly>, verifyOnly: bool, limit: int64): (r: int64)
    requires |files| == |a.files| && limit >= 0
    ensures 0 <= r <= limit
  {
    var total := Accepted(a, files, verifyOnly, |files|);
    if total > limit then 0 else total
  }

  method AllocateFileBuffers(a: Archive, files: array<FileAssembly>, verifyOnly: bool, budget: MemoryBudget)
    requires files.Length == |a.files| && budget.Valid() && budget.used == 0
    requires forall i :: 0 <= i < files.Length ==> !files[i].assemble
    modifies files, budget
    ensures budget.Valid() && budget.used == Reserved(a, old(files[..]), verifyOnly, budget.limit)
    ensures budget.clamped == old(budget.clamped)
    ensures forall i :: 0 <= i < files.Length ==>
      files[i] == Allocated(a, old(files[..]), verifyOnly, budget.limit, i)
  {
    ghost var before := files[..];
    var total: uint64 := 0;
    for i := 0 to files.Length
      invariant total == Accepted(a, before, verifyOnly, i)
      invariant forall j :: 0 <= j < i ==> files[j] == Considered(a, before, verifyOnly, j)
      invariant forall j :: i <= j < files.Length ==> files[j] == before[j]
      modifies files
    {
      if files[i].skip || files[i].failed || (verifyOnly && a.files[i].checksum.kind == ChecksumNone) {
        continue;
      }
      var size := files[i].totalSize;
      if size > MAX_INT64 || MAX_UINT64 - total < size {
        files[i] := Marked(files[i], LimitExceeded).(assemble := false);
        continue;
      }
      files[i] := files[i].(assemble := true);
      total := total + size;
    }
    var ok := budget.Reserve(total);
    if !ok {
      for i := 0 to files.Length
        invariant forall j :: 0 <= j < i ==> files[j] == Allocated(a, before, verifyOnly, budget.limit, j)
        invariant forall j :: i <= j < files.Length ==> files[j] == Considered(a, before, verifyOnly, j)
        modifies files
      {
        if files[i].assemble {
          files[i] := Marked(files[i], LimitExceeded).(assemble := false);
        }
      }
    }
  }

  /** make([]byte, totalSize) for a file that is to be assembled. */
  function WithBuffer(f: FileAssembly): FileAssembly {
    if f.failed || !f.assemble then f else f.(data := Zeros(f.totalSize))
  }

  // ---------------------------------------------------------------- one segment into its file

  /** A decoded segment: checked against its declared size and copied to its destination. */
  function Stored(f: FileAssembly, ref: SegmentRef, segment: bytes): FileAssembly {
    if ref.expectedSize != 0 && |segment| != ref.expectedSize then Marked(f, CorruptData)
    else if !f.assemble then f
    else if ref.destOffset > |f.data| || |segment| > |f.data| - ref.destOffset then Marked(f, CorruptData)
    else f.(data := Spliced(f.data, ref.destOffset, segment))
  }

  /** The segment of a reference, when `limit` is free before its chunk is decoded. */
  function RefData(env: Env, limit: int64, ref: SegmentRef): Result<bytes, Fault>
    requires limit >= 0
  {
    match ChunkData(env, ref.entry.chunk, limit)
    case Err(fault) => Err(fault)
    case Ok(chunk) => SegmentData(env.codecs, chunk, ref.entry.file, limit - |chunk|)
  }

  function Step(env: Env, limit: int64, ref: SegmentRef, f: FileAssembly): FileAssembly
    requires limit >= 0
  {
    if f.failed then f
    else
      match RefData(env, limit, ref)
      case Err(fault) => Marked(f, fault)
      case Ok(segment) => Stored(f, ref, segment)
  }

  /** All references of file i, one after the other. */
  function Run(env: Env, limit: int64, refs: seq<SegmentRef>, i: nat, f: FileAssembly): FileAssembly
    requires limit >= 0
  {
    if refs == [] then f
    else
      var before := Run(env, limit, refs[..|refs| - 1], i, f);
      var last := refs[|refs| - 1];
      if last.fileIndex == i then Step(env, limit, last, before) else before
  }

  /** All files after the references have been processed in order. */
  function RunAll(env: Env, limit: int64, refs: seq<SegmentRef>, files: seq<FileAssembly>): (r: seq<FileAssembly>)
    requires limit >= 0
    ensures |r| == |files|
    ensures forall i :: 0 <= i < |files| ==> r[i] == Run(env, limit, refs, i, files[i])
  {
    seq(|files|, i requires 0 <= i < |files| => Run(env, limit, refs, i, files[i]))
  }

  lemma RunAllSnoc(env: Env, limit: int64, refs: seq<SegmentRef>, k: nat, files: seq<FileAssembly>)
    requires limit >= 0 && k < |refs| && refs[k].fileIndex < |files|
    ensures var before := RunAll(env, limit, refs[..k], files);
      var j := refs[k].fileIndex;
      RunAll(env, limit, refs[..k + 1], files) == before[j := Step(env, limit, refs[k], before[j])]
  {
    forall i | 0 <= i < |files|
      ensures var before := Run(env, limit, refs[..k], i, files[i]);
        RunAll(env, limit, refs[..k + 1], files)[i]
        == if refs[k].fileIndex == i then Step(env, limit, refs[k], before) else before
    {
      RunSnoc(env, limit, refs, k, i, files[i]);
    }
  }

  lemma RunAllConcat(env: Env, limit: int64, s: seq<SegmentRef>, t: seq<SegmentRef>, files: seq<FileAssembly>)
    requires limit >= 0
    ensures RunAll(env, limit, s + t, files) == RunAll(env, limit, t, RunAll(env, limit, s, files))
  {
    forall i | 0 <= i < |files|
      ensures RunAll(env, limit, s + t, files)[i] == RunAll(env, limit, t, RunAll(env, limit, s, files))[i]
    {
      RunConcat(env, limit, s, t, i, files[i]);
    }
  }

  lemma RunSnoc(env: Env, limit: int64, refs: seq<SegmentRef>, k: nat, i: nat, f: FileAssembly)
    requires limit >= 0 && k < |refs|
    ensures var before := Run(env, limit, refs[..k], i, f);
      Run(env, limit, refs[..k + 1], i, f)
      == if refs[k].fileIndex == i then Step(env, limit, refs[k], before) else before
  {
    assert refs[..k + 1][..k] == refs[..k];
  }

  lemma {:induction false} RunConcat(env: Env, limit: int64, s: seq<SegmentRef>, t: seq<SegmentRef>, i: nat,
                                     f: FileAssembly)
    requires limit >= 0
    ensures Run(env, limit, s + t, i, f) == Run(env, limit, t, i, Run(env, limit, s, i, f))
    decreases |t|
  {
    if t == [] {
      assert s + t == s;
    } else {
      RunConcat(env, limit, s, t[..|t| - 1], i, f);
      assert (s + t)[..|s + t| - 1] == s + t[..|t| - 1];
    }
  }

  /** A failed file stays as it is. */
  lemma {:induction false} RunFailed(env: Env, limit: int64, refs: seq<SegmentRef>, i: nat, f: FileAssembly)
    requires limit >= 0 && f.failed
    ensures Run(env, limit, refs, i, f) == f
  {
    if refs != [] {
      RunFailed(env, limit, refs[..|refs| - 1], i, f);
    }
  }

  // ---------------------------------------------------------------- one group

  method MarkFailure(files: array<FileAssembly>, index: nat, fault: Fault)
    requires index < files.Length
    modifies files
    ensures files[..] == old(files[..])[index := Marked(old(files[index]), fault)]
  {
    if files[index].failed {
      return;
    }
    files[index] := files[index].(failed := true, fault := Some(fault));
  }

  predicate GroupFits(group: ChunkGroup, n: nat) {
    forall k :: 0 <= k < |group.refs| ==> group.refs[k].fileIndex < n && group.refs[k].entry.chunk == group.chunk
  }

  predicate Alive(f: FileAssembly) {
    !f.skip && !f.failed
  }

  method GroupNeeded(group: ChunkGroup, files: array<FileAssembly>) returns (needed: bool)
    requires GroupFits(group, files.Length)
    ensures needed <==> exists k :: 0 <= k < |group.refs| && Alive(files[group.refs[k].fileIndex])
  {
    for k := 0 to |group.refs|
      invariant forall j :: 0 <= j < k ==> !Alive(files[group.refs[j].fileIndex])
    {
      var file := files[group.refs[k].fileIndex];
      if !file.skip && !file.failed {
        return true;
      }
    }
    needed := false;
  }

  /** A chunk that cannot be decoded fails every file that has a segment in it. */
  method FailGroup(env: Env, group: ChunkGroup, files: array<FileAssembly>, fault: Fault, ghost limit: int64)
    requires limit >= 0 && GroupFits(group, files.Length)
    requires ChunkData(env, group.chunk, limit) == Err(fault)
    modifies files
    ensures files[..] == RunAll(env, limit, group.refs, old(files[..]))
  {
    ghost var before := files[..];
    for k := 0 to |group.refs|
      invariant files[..] == RunAll(env, limit, group.refs[..k], before)
    {
      RunAllSnoc(env, limit, group.refs, k, before);
      MarkFailure(files, group.refs[k].fileIndex, fault);
    }
    assert group.refs[..|group.refs|] == group.refs;
  }

  /** One reference of a decoded chunk.  The reservation for a filtered segment succeeds: the
      filter has already been held to what is available. */
  method PlaceSegment(env: Env, ref: SegmentRef, chunk: bytes, files: array<FileAssembly>, budget: MemoryBudget,
                      ghost limit: int64)
    requires ref.fileIndex < files.Length && budget.Valid()
    requires 0 <= limit && |chunk| <= limit == budget.limit - budget.used + |chunk|
    requires ChunkData(env, ref.entry.chunk, limit) == Ok(chunk)
    modifies files, budget
    ensures files[..] == old(files[..])[ref.fileIndex := Step(env, limit, ref, old(files[ref.fileIndex]))]
    ensures budget.Valid() && budget.used == old(budget.used)
    ensures budget.refused == old(budget.refused) && budget.clamped == old(budget.clamped)
  {
    var i := ref.fileIndex;
    if files[i].failed {
      return;
    }
    var available := budget.Available();
    var decoded := DecodeFileSegment(env.codecs, chunk, ref.entry.file, available);
    if decoded.Err? {
      MarkFailure(files, i, decoded.error);
      return;
    }
    var segment := decoded.value;
    var transient: uint64 := 0;
    if ref.entry.file.filter != NoFilter {
      SegmentThreshold(env.codecs, chunk, ref.entry.file, available);
      transient := |segment|;
      var ok := budget.Reserve(transient);
      assert ok;
    }
    var failed := false;
    if ref.expectedSize != 0 && |segment| != ref.expectedSize {
      failed := true;
    } else if files[i].assemble {
      if ref.destOffset > |files[i].data| || |segment| > |files[i].data| - ref.destOffset {
        failed := true;
      } else {
        files[i] := files[i].(data := Spliced(files[i].data, ref.destOffset, segment));
      }
    }
    budget.Release(transient);
    if failed {
      MarkFailure(files, i, CorruptData);
    }
  }

  method PlaceSegments(env: Env, group: ChunkGroup, chunk: bytes, files: array<FileAssembly>, budget: MemoryBudget,
                       ghost limit: int64)
    requires GroupFits(group, files.Length) && budget.Valid()
    requires 0 <= limit && |chunk| <= limit == budget.limit - budget.used + |chunk|
    requires ChunkData(env, group.chunk, limit) == Ok(chunk)
    modifies files, budget
    ensures files[..] == RunAll(env, limit, group.refs, old(files[..]))
    ensures budget.Valid() && budget.used == old(budget.used)
    ensures budget.refused == old(budget.refused) && budget.clamped == old(budget.clamped)
  {
    ghost var before := files[..];
    for k := 0 to |group.refs|
      invariant files[..] == RunAll(env, limit, group.refs[..k], before)
      invariant budget.Valid() && budget.used == old(budget.used)
      invariant budget.refused == old(budget.refused) && budget.clamped == old(budget.clamped)
    {
      RunAllSnoc(env, limit, group.refs, k, before);
      PlaceSegment(env, group.refs[k], chunk, files, budget, limit);
    }
    assert group.refs[..|group.refs|] == group.refs;
  }

  /** One group, from the check whether it is needed to the release of its chunk.  The budget
      is back where it was, no reservation has been refused and no release has been clamped. */
  method ProcessGroup(env: Env, group: ChunkGroup, files: array<FileAssembly>, budget: MemoryBudget,
                      ghost limit: int64)
    requires budget.limit - budget.used == limit
    requires GroupFits(group, files.Length) && budget.Valid()
    requires forall k :: 0 <= k < |group.refs| ==> !files[group.refs[k].fileIndex].skip
    modifies files, budget
    ensures budget.Valid() && budget.used == old(budget.used)
    ensures budget.refused == old(budget.refused) && budget.clamped == old(budget.clamped)
    ensures files[..] == RunAll(env, limit, group.refs, old(files[..]))
  {
    ghost var before := files[..];
    var needed := GroupNeeded(group, files);
    if !needed {
      forall i | 0 <= i < files.Length
        ensures RunAll(env, limit, group.refs, before)[i] == before[i]
      {
        NothingNeeded(env, limit, group, before, i);
      }
      return;
    }
    var available := budget.Available();
    var decoded := DecodeChunk(env, group.chunk, available);
    if decoded.Err? {
      FailGroup(env, group, files, decoded.error, limit);
      return;
    }
    var chunk := decoded.value;
    ChunkThreshold(env, group.chunk, available);
    var ok := budget.Reserve(|chunk|);
    assert ok;
    PlaceSegments(env, group, chunk, files, budget, limit);
    budget.Release(|chunk|);
  }

  /** The refs of a group none of whose files is still alive change nothing. */
  lemma {:induction false} NothingNeeded(env: Env, limit: int64, group: ChunkGroup, files: seq<FileAssembly>, i: nat)
    requires limit >= 0 && i < |files| && GroupFits(group, |files|)
    requires forall k :: 0 <= k < |group.refs| ==> files[group.refs[k].fileIndex].failed
    ensures Run(env, limit, group.refs, i, files[i]) == files[i]
    decreases |group.refs|
  {
    if group.refs != [] {
      NothingNeeded(env, limit, group.(refs := group.refs[..|group.refs| - 1]), files, i);
    }
  }

  // ---------------------------------------------------------------- all groups

  predicate GroupsFit(groups: seq<ChunkGroup>, n: nat) {
    forall g :: 0 <= g < |groups| ==> GroupFits(groups[g], n)
  }

  lemma FlatSnoc(groups: seq<ChunkGroup>, g: nat)
    requires g < |groups|
    ensures Flat(groups[..g + 1]) == Flat(groups[..g]) + groups[g].refs
  {
    assert groups[..g + 1][..g] == groups[..g];
  }

  lemma {:induction false} RunKeeps(env: Env, limit: int64, refs: seq<SegmentRef>, i: nat, f: FileAssembly)
    requires limit >= 0
    ensures var r := Run(env, limit, refs, i, f);
      r.skip == f.skip && r.assemble == f.assemble && r.totalSize == f.totalSize && |r.data| == |f.data|
  {
    if refs != [] {
      RunKeeps(env, limit, refs[..|refs| - 1], i, f);
    }
  }

  predicate NoSkipped(groups: seq<ChunkGroup>, files: seq<FileAssembly>)
    requires GroupsFit(groups, |files|)
  {
    forall g, k :: 0 <= g < |groups| && 0 <= k < |groups[g].refs| ==> !files[groups[g].refs[k].fileIndex].skip
  }

  /** The groups in order.  At every group boundary the budget holds exactly what it held
      before the first one, so all groups are decoded under the same limit. */
  method ProcessGroups(env: Env, groups: seq<ChunkGroup>, files: array<FileAssembly>, budget: MemoryBudget,
                       ghost limit: int64)
    requires budget.limit - budget.used == limit
    requires GroupsFit(groups, files.Length) && budget.Valid() && NoSkipped(groups, files[..])
    modifies files, budget
    ensures budget.Valid() && budget.used == old(budget.used)
    ensures budget.refused == old(budget.refused) && budget.clamped == old(budget.clamped)
    ensures files[..] == RunAll(env, limit, Flat(groups), old(files[..]))
  {
    ghost var before := files[..];
    for g := 0 to |groups|
      invariant budget.Valid() && budget.used == old(budget.used)
      invariant budget.refused == old(budget.refused) && budget.clamped == old(budget.clamped)
      invariant files[..] == RunAll(env, limit, Flat(groups[..g]), before)
    {
      FlatSnoc(groups, g);
      RunAllConcat(env, limit, Flat(groups[..g]), groups[g].refs, before);
      SkippedStays(env, limit, Flat(groups[..g]), before, groups[g]);
      ProcessGroup(env, groups[g], files, budget, limit);
    }
    assert groups[..|groups|] == groups;
  }

  lemma SkippedStays(env: Env, limit: int64, refs: seq<SegmentRef>, files: seq<FileAssembly>, group: ChunkGroup)
    requires limit >= 0 && GroupFits(group, |files|)
    requires forall k :: 0 <= k < |group.refs| ==> !files[group.refs[k].fileIndex].skip
    ensures forall k :: 0 <= k < |group.refs| ==> !RunAll(env, limit, refs, files)[group.refs[k].fileIndex].skip
  {
    forall k | 0 <= k < |group.refs|
      ensures !RunAll(env, limit, refs, files)[group.refs[k].fileIndex].skip
    {
      RunKeeps(env, limit, refs, group.refs[k].fileIndex, files[group.refs[k].fileIndex]);
    }
  }

  // ---------------------------------------------------------------- results

  datatype FileResult = FileResult(fileIndex: nat, data: bytes)

  datatype FileFailure = FileFailure(fileIndex: nat, fault: Fault)

  datatype Report = Report(results: seq<FileResult>, failures: seq<FileFailure>)

  /** verifyFinalChecksum. */
  function FinalFault(codecs: Codecs, file: FileEntry, data: bytes, totalSize: uint64): Option<Fault> {
    if file.checksum.kind == ChecksumNone then None
    else if |data| != totalSize then Some(CorruptData)
    else if Verified(codecs, file.checksum, data) then None
    else Some(BadChecksum)
  }

  predicate Succeeds(codecs: Codecs, file: FileEntry, f: FileAssembly) {
    !f.skip && !f.failed && FinalFault(codecs, file, f.data, f.totalSize) == None
  }

  /** The report on the first n files. */
  function Reported(codecs: Codecs, a: Archive, files: seq<FileAssembly>, verifyOnly: bool, n: nat): Report
    requires n <= |files| == |a.files|
  {
    if n == 0 then Report([], [])
    else
      var before := Reported(codecs, a, files, verifyOnly, n - 1);
      var f := files[n - 1];
      if f.skip then before
      else
        match (if f.failed then f.fault else FinalFault(codecs, a.files[n - 1], f.data, f.totalSize))
        case Some(fault) => before.(failures := before.failures + [FileFailure(n - 1, fault)])
        case None => before.(results := before.results + [FileResult(n - 1, if verifyOnly then [] else f.data)])
  }

  // ---------------------------------------------------------------- Extract

  function PlacedFiles(a: Archive): (placed: seq<FileAssembly>)
    ensures |placed| == |a.files|
    ensures forall i :: 0 <= i < |a.files| ==> placed[i] == Placed(a, i)
  {
    seq(|a.files|, i requires 0 <= i < |a.files| => Placed(a, i))
  }

  /** File i with its buffer, as it is before the first group. */
  function Start(a: Archive, limit: int64, verifyOnly: bool, i: nat): FileAssembly
    requires limit >= 0 && i < |a.files|
  {
    WithBuffer(Allocated(a, PlacedFiles(a), verifyOnly, limit, i))
  }

  function Starts(a: Archive, limit: int64, verifyOnly: bool): (files: seq<FileAssembly>)
    requires limit >= 0
    ensures |files| == |a.files|
    ensures forall i :: 0 <= i < |files| ==> files[i] == Start(a, limit, verifyOnly, i)
  {
    seq(|a.files|, i requires 0 <= i < |a.files| => Start(a, limit, verifyOnly, i))
  }

  /** What every chunk is decoded under: the limit less the reserved output. */
  function ChunkBudget(a: Archive, limit: int64, verifyOnly: bool): (n: int64)
    requires limit >= 0
    ensures 0 <= n <= limit
  {
    limit - Reserved(a, PlacedFiles(a), verifyOnly, limit)
  }

  /** All files after all groups. */
  function Outcomes(env: Env, a: Archive, limit: int64, verifyOnly: bool): (o: seq<FileAssembly>)
    requires limit >= 0
    ensures |o| == |a.files|
    ensures forall i :: 0 <= i < |o| ==>
      o[i] == Run(env, ChunkBudget(a, limit, verifyOnly), Flat(GroupsOf(a)), i, Start(a, limit, verifyOnly, i))
  {
    RunAll(env, ChunkBudget(a, limit, verifyOnly), Flat(GroupsOf(a)), Starts(a, limit, verifyOnly))
  }

  const DEFAULT_MEMORY_LIMIT: int64 := 0x4000_0000

  lemma RefsAreInRange(a: Archive)
    ensures GroupsFit(GroupsOf(a), |a.files|)
    ensures forall g, k :: 0 <= g < |GroupsOf(a)| && 0 <= k < |GroupsOf(a)[g].refs| ==>
      GroupsOf(a)[g].refs[k].fileIndex < |a.files| && Placeable(a, GroupsOf(a)[g].refs[k].fileIndex)
  {
    var groups := GroupsOf(a);
    GroupsAreUniform(a);
    forall g, k | 0 <= g < |groups| && 0 <= k < |groups[g].refs|
      ensures groups[g].refs[k].fileIndex < |a.files| && Placeable(a, groups[g].refs[k].fileIndex)
    {
      ExactRegrouping(a);
      InFlat(groups, g, k);
      assert groups[g].refs[k] in multiset(AllRefs(a, |a.files|));
      AllInRange(a, |a.files|);
    }
  }

  lemma {:induction false} InFlat(groups: seq<ChunkGroup>, g: nat, k: nat)
    requires g < |groups| && k < |groups[g].refs|
    ensures groups[g].refs[k] in multiset(Flat(groups))
  {
    var n := |groups| - 1;
    if g < n {
      InFlat(groups[..n], g, k);
      assert groups[g].refs[k] in Flat(groups[..n]);
    }
    assert groups[g].refs[k] in Flat(groups);
  }

  lemma {:induction false} AllInRange(a: Archive, n: nat)
    requires n <= |a.files|
    ensures forall r :: r in AllRefs(a, n) ==> r.fileIndex < n && Placeable(a, r.fileIndex)
  {
    if n > 0 {
      AllInRange(a, n - 1);
      OwnReferences(a, n - 1);
    }
  }

  lemma PlaceableIsKept(a: Archive, limit: int64, verifyOnly: bool, i: nat)
    requires i < |a.files| && Placeable(a, i)
    ensures !Allocated(a, PlacedFiles(a), verifyOnly, limit, i).skip
  {
    assert Locations(a.files[i])[0] == a.files[i].location;
    assert !PlacedFiles(a)[i].skip;
  }

  /** No group refers to a file that is out of range or skipped. */
  lemma StartsFit(a: Archive, limit: int64, verifyOnly: bool)
    requires limit >= 0
    ensures GroupsFit(GroupsOf(a), |a.files|) && NoSkipped(GroupsOf(a), Starts(a, limit, verifyOnly))
  {
    RefsAreInRange(a);
    forall g, k | 0 <= g < |GroupsOf(a)| && 0 <= k < |GroupsOf(a)[g].refs|
      ensures !Starts(a, limit, verifyOnly)[GroupsOf(a)[g].refs[k].fileIndex].skip
    {
      PlaceableIsKept(a, limit, verifyOnly, GroupsOf(a)[g].refs[k].fileIndex);
    }
  }

  /** Buffers for all files that are to be assembled, after one aggregate reservation. */
  method AllocateAll(a: Archive, files: array<FileAssembly>, verifyOnly: bool, budget: MemoryBudget)
    requires files.Length == |a.files| && files[..] == PlacedFiles(a)
    requires budget.Valid() && budget.used == 0
    modifies files, budget
    ensures budget.Valid() && budget.used == Reserved(a, PlacedFiles(a), verifyOnly, budget.limit)
    ensures files[..] == Starts(a, budget.limit, verifyOnly)
  {
    ghost var placed := files[..];
    AllocateFileBuffers(a, files, verifyOnly, budget);
    for i := 0 to files.Length
      invariant BufferedSoFar(a, placed, files[..], verifyOnly, budget.limit, i)
      modifies files
    {
      ghost var before := files[..];
      AddBuffer(files, i);
      BufferedNext(a, placed, before, files[..], verifyOnly, budget.limit, i);
    }
  }

  method AddBuffer(files: array<FileAssembly>, i: nat)
    requires i < files.Length
    modifies files
    ensures files[..] == old(files[..])[i := WithBuffer(old(files[..])[i])]
  {
    if !files[i].failed && files[i].assemble {
      files[i] := files[i].(data := Zeros(files[i].totalSize));
    }
  }

  lemma BufferedNext(a: Archive, placed: seq<FileAssembly>, before: seq<FileAssembly>, after: seq<FileAssembly>,
                     verifyOnly: bool, limit: int64, n: nat)
    requires limit >= 0 && |placed| == |a.files| && n < |before|
    requires BufferedSoFar(a, placed, before, verifyOnly, limit, n)
    requires after == before[n := WithBuffer(before[n])]
    ensures BufferedSoFar(a, placed, after, verifyOnly, limit, n + 1)
  {
  }

  /** The first n files have their buffers. */
  ghost predicate BufferedSoFar(a: Archive, placed: seq<FileAssembly>, files: seq<FileAssembly>, verifyOnly: bool,
                                limit: int64, n: nat)
    requires limit >= 0 && |placed| == |a.files|
  {
    && n <= |files| == |placed|
    && (forall j :: 0 <= j < n ==> files[j] == WithBuffer(Allocated(a, placed, verifyOnly, limit, j)))
    && (forall j :: n <= j < |files| ==> files[j] == Allocated(a, placed, verifyOnly, limit, j))
  }

  /** The last loop of Extract: results and failures in file order. */
  method Collect(codecs: Codecs, a: Archive, files: array<FileAssembly>, verifyOnly: bool) returns (report: Report)
    requires files.Length == |a.files|
    requires forall i :: 0 <= i < files.Length && files[i].failed ==> files[i].fault.Some?
    ensures report == Reported(codecs, a, files[..], verifyOnly, files.Length)
  {
    var results: seq<FileResult> := [];
    var failures: seq<FileFailure> := [];
    for i := 0 to files.Length
      invariant Report(results, failures) == Reported(codecs, a, files[..], verifyOnly, i)
    {
      var f := files[i];
      if f.skip {
        continue;
      }
      if f.failed {
        failures := failures + [FileFailure(i, f.fault.value)];
        continue;
      }
      var fault := FinalFault(codecs, a.files[i], f.data, f.totalSize);
      if fault.Some? {
        failures := failures + [FileFailure(i, fault.value)];
        continue;
      }
      results := results + [FileResult(i, if verifyOnly then [] else f.data)];
    }
    report := Report(results, failures);
  }

  /** All groups of an archive, over freshly reserved buffers. */
  method AssembleFiles(env: Env, a: Archive, files: array<FileAssembly>, limit: int64, verifyOnly: bool)
    requires limit >= 0 && files.Length == |a.files|
    requires forall i :: 0 <= i < files.Length ==> files[i] == EMPTY_ASSEMBLY
    modifies files
    ensures files[..] == Outcomes(env, a, limit, verifyOnly)
  {
    var groups := BuildGroups(a, files);
    assert files[..] == PlacedFiles(a);
    var budget := new MemoryBudget(limit);
    AllocateAll(a, files, verifyOnly, budget);
    StartsFit(a, limit, verifyOnly);
    ProcessGroups(env, groups, files, budget, ChunkBudget(a, limit, verifyOnly));
  }

  /** Extract.  What it reports on each file is a function of the archive, the environment and
      the limit: the order of the groups, the stable sort and the failures of other files
      appear in it only through that file's own references. */
  method Extract(env: Env, a: Archive, memoryLimit: int64, verifyOnly: bool) returns (report: Option<Report>)
    ensures memoryLimit < 0 ==> report == None
    ensures memoryLimit >= 0 ==>
      var limit := if memoryLimit == 0 then 0x4000_0000 else memoryLimit;
      report == Some(Reported(env.codecs, a, Outcomes(env, a, limit, verifyOnly), verifyOnly, |a.files|))
  {
    var limit := memoryLimit;
    if limit == 0 {
      limit := DEFAULT_MEMORY_LIMIT;
    }
    if limit < 0 {
      return None;
    }
    var files := new FileAssembly[|a.files|](_ => EMPTY_ASSEMBLY);
    AssembleFiles(env, a, files, limit, verifyOnly);
    FaultsAreKnown(env, a, limit, verifyOnly);
    var collected := Collect(env.codecs, a, files, verifyOnly);
    report := Some(collected);
  }

  predicate FaultKnown(f: FileAssembly) {
    f.failed ==> f.fault.Some?
  }

  lemma {:induction false} RunKnowsFault(env: Env, limit: int64, refs: seq<SegmentRef>, i: nat, f: FileAssembly)
    requires limit >= 0 && FaultKnown(f)
    ensures FaultKnown(Run(env, limit, refs, i, f))
  {
    if refs != [] {
      RunKnowsFault(env, limit, refs[..|refs| - 1], i, f);
    }
  }

  lemma FaultsAreKnown(env: Env, a: Archive, limit: int64, verifyOnly: bool)
    requires limit >= 0
    ensures forall i :: 0 <= i < |a.files| ==> FaultKnown(Outcomes(env, a, limit, verifyOnly)[i])
  {
    forall i | 0 <= i < |a.files|
      ensures FaultKnown(Outcomes(env, a, limit, verifyOnly)[i])
    {
      assert FaultKnown(Start(a, limit, verifyOnly, i));
      RunKnowsFault(env, ChunkBudget(a, limit, verifyOnly), Flat(GroupsOf(a)), i, Start(a, limit, verifyOnly, i));
    }
  }
}
