/** What a larger budget does to an extraction.  Verify reserves no more output than Extract,
    so it decodes every chunk under at least the same limit; nothing Extract returns is lost.
    The same argument makes extraction monotone in the memory limit.  Verifying is not: which
    files a larger limit loses is said by what their segments need. */
module Relaxation {
  import opened Bytes
  import opened Format
  import opened Decoding
  import opened Grouping
  import opened Regrouping
  import opened Extraction
  import opened Refinement
  import opened Slices

  // ---------------------------------------------------------------- reservations

  /** If everything Extract considers fits an int64, verifying accepts no more than it; the
      sum of fewer sizes cannot overflow either. */
  lemma {:induction false} VerifyAcceptsLess(a: Archive, files: seq<FileAssembly>, n: nat)
    requires n <= |files| == |a.files|
    requires Accepted(a, files, false, n) <= MAX_INT64
    ensures Accepted(a, files, true, n) <= Accepted(a, files, false, n)
  {
    if n > 0 {
      AcceptedGrows(a, files, false, n - 1, n);
      VerifyAcceptsLess(a, files, n - 1);
    }
  }

  // ---------------------------------------------------------------- simulation

  lemma RefLimit(env: Env, limit: int64, more: int64, ref: SegmentRef)
    requires 0 <= limit <= more && RefData(env, limit, ref).Ok?
    ensures RefData(env, more, ref) == RefData(env, limit, ref)
  {
    ChunkThreshold(env, ref.entry.chunk, limit);
    ChunkThreshold(env, ref.entry.chunk, more);
    var chunk := ChunkData(env, ref.entry.chunk, limit).value;
    SegmentThreshold(env.codecs, chunk, ref.entry.file, limit - |chunk|);
    SegmentThreshold(env.codecs, chunk, ref.entry.file, more - |chunk|);
  }

  /** The same file under a larger limit, with the same buffer or with none. */
  ghost predicate Simulates(f: FileAssembly, g: FileAssembly) {
    && !g.failed
    && g.totalSize == f.totalSize && g.skip == f.skip
    && (g.assemble ==> f.assemble && g.data == f.data)
  }

  lemma {:induction false} RunRelaxed(env: Env, limit: int64, more: int64, refs: seq<SegmentRef>, i: nat,
                                      f: FileAssembly, g: FileAssembly)
    requires 0 <= limit <= more && Simulates(f, g)
    requires !Run(env, limit, refs, i, f).failed
    ensures Simulates(Run(env, limit, refs, i, f), Run(env, more, refs, i, g))
  {
    if refs != [] {
      var init, last := refs[..|refs| - 1], refs[|refs| - 1];
      RunRelaxed(env, limit, more, init, i, f, g);
      if last.fileIndex == i {
        RefLimit(env, limit, more, last);
      }
    }
  }

  /** A file that survives starts unfailed. */
  lemma SurvivorStarts(env: Env, limit: int64, refs: seq<SegmentRef>, i: nat, f: FileAssembly)
    requires limit >= 0 && !Run(env, limit, refs, i, f).failed
    ensures !f.failed
  {
    if f.failed {
      RunFailed(env, limit, refs, i, f);
    }
  }

  // ---------------------------------------------------------------- Verify and Extract

  /** If Extract starts file i, so does Verify, with no more output reserved. */
  lemma VerifyStarts(a: Archive, limit: int64, i: nat)
    requires limit >= 0 && i < |a.files|
    requires !Start(a, limit, false, i).failed && !Start(a, limit, false, i).skip
    ensures Simulates(Start(a, limit, false, i), Start(a, limit, true, i))
    ensures ChunkBudget(a, limit, false) <= ChunkBudget(a, limit, true)
    ensures a.files[i].checksum.kind != ChecksumNone ==> Start(a, limit, true, i).assemble
  {
    var files := PlacedFiles(a);
    VerifyAcceptsLess(a, files, |files|);
    NoOverflow(a, files, false, i);
    NoOverflow(a, files, true, i);
  }

  /** Verify is a relaxation of Extract: every file that Extract returns under a limit is also
      among the results of verifying the same archive under the same limit. */
  lemma VerifyRelaxesExtract(env: Env, a: Archive, limit: int64, r: FileResult)
    requires limit >= 0
    requires r in Results(env, a, limit, false)
    ensures FileResult(r.fileIndex, []) in Results(env, a, limit, true)
  {
    ResultIsOutcome(env, a, limit, false, r);
    ResultIsOutcome(env, a, limit, true, FileResult(r.fileIndex, []));
    VerifySucceeds(env, a, limit, r.fileIndex);
  }

  lemma VerifySucceeds(env: Env, a: Archive, limit: int64, i: nat)
    requires limit >= 0 && i < |a.files|
    requires Succeeds(env.codecs, a.files[i], Outcomes(env, a, limit, false)[i])
    ensures Succeeds(env.codecs, a.files[i], Outcomes(env, a, limit, true)[i])
  {
    var refs := Flat(GroupsOf(a));
    var f, g := Start(a, limit, false, i), Start(a, limit, true, i);
    var less, more := ChunkBudget(a, limit, false), ChunkBudget(a, limit, true);
    RunKeeps(env, less, refs, i, f);
    SurvivorStarts(env, less, refs, i, f);
    VerifyStarts(a, limit, i);
    RunRelaxed(env, less, more, refs, i, f, g);
    RunKeeps(env, more, refs, i, g);
  }

  // ---------------------------------------------------------------- a larger memory limit

  /** What a larger limit leaves for the chunks: at least as much, except when only the larger
      limit can make the reservation and the reservation takes more than the difference. */
  lemma MoreForChunks(a: Archive, limit: int64, more: int64, verifyOnly: bool)
    requires 0 <= limit <= more
    ensures ChunkBudget(a, limit, verifyOnly) <= ChunkBudget(a, more, verifyOnly)
       <==> !(limit < Demand(a, verifyOnly) <= more < limit + Demand(a, verifyOnly))
  {
  }

  lemma MoreMemoryStarts(a: Archive, limit: int64, more: int64, verifyOnly: bool, i: nat)
    requires 0 <= limit <= more && i < |a.files|
    requires !(verifyOnly && a.files[i].checksum.kind == ChecksumNone)
    requires !Start(a, limit, verifyOnly, i).failed && !Start(a, limit, verifyOnly, i).skip
    ensures Simulates(Start(a, limit, verifyOnly, i), Start(a, more, verifyOnly, i))
    ensures Start(a, limit, verifyOnly, i).assemble == Start(a, more, verifyOnly, i).assemble == true
    ensures Demand(a, verifyOnly) <= limit
  {
    StartShape(a, limit, verifyOnly, i);
    StartShape(a, more, verifyOnly, i);
  }

  /** Does every segment of file i need no more than this? */
  predicate FitsIn(env: Env, a: Archive, limit: int64, i: nat)
    requires i < |a.files|
  {
    && Placeable(a, i)
    && forall k :: 0 <= k < |Locations(a.files[i])| ==> Need(env, a.entries[Locations(a.files[i])[k]]) <= limit
  }

  /** A file without a checksum is verified exactly if its segments decode without a limit and
      need no more than what the reservation for other files leaves. */
  lemma VerifyThreshold(env: Env, a: Archive, limit: int64, i: nat)
    requires limit >= 0 && i < |a.files| && a.files[i].checksum.kind == ChecksumNone
    ensures FileResult(i, []) in Results(env, a, limit, true)
      <==> && FitsIn(env, a, ChunkBudget(a, limit, true), i)
           && forall k :: 0 <= k < |Locations(a.files[i])| ==> FreeEntry(env, a.entries[Locations(a.files[i])[k]]).Some?
  {
    VerifyUnchecked(env, a, limit, i);
    if Placeable(a, i) {
      forall k | 0 <= k < |Locations(a.files[i])|
        ensures var entry := a.entries[Locations(a.files[i])[k]];
          NaiveSegment(env, ChunkBudget(a, limit, true), entry).Ok?
          <==> FreeEntry(env, entry).Some? && Need(env, entry) <= ChunkBudget(a, limit, true)
      {
        EntryThreshold(env, ChunkBudget(a, limit, true), a.entries[Locations(a.files[i])[k]]);
      }
    }
  }

  /** What is returned under a limit is returned, with the same bytes, under a larger one exactly
      if it is extracted, or has a checksum and so a reservation of its own, or needs no more
      for its segments than the larger limit leaves. */
  lemma MoreMemoryKeepsResults(env: Env, a: Archive, limit: int64, more: int64, verifyOnly: bool, i: nat, d: bytes)
    requires 0 <= limit <= more && i < |a.files|
    requires FileResult(i, d) in Results(env, a, limit, verifyOnly)
    ensures FileResult(i, d) in Results(env, a, more, verifyOnly)
      <==> || !verifyOnly || a.files[i].checksum.kind != ChecksumNone
           || FitsIn(env, a, ChunkBudget(a, more, true), i)
  {
    ResultIsOutcome(env, a, limit, verifyOnly, FileResult(i, d));
    ResultIsOutcome(env, a, more, verifyOnly, FileResult(i, d));
    if verifyOnly && a.files[i].checksum.kind == ChecksumNone {
      VerifyThreshold(env, a, limit, i);
      VerifyThreshold(env, a, more, i);
    } else {
      AssembledSucceeds(env, a, limit, more, verifyOnly, i);
    }
  }

  /** So the only limits that lose a file are those that are the first to make the reservation
      and leave less behind it. */
  lemma KeptOutsideTheWindow(env: Env, a: Archive, limit: int64, more: int64, verifyOnly: bool, i: nat, d: bytes)
    requires 0 <= limit <= more && i < |a.files|
    requires verifyOnly ==> !(limit < Demand(a, verifyOnly) <= more < limit + Demand(a, verifyOnly))
    requires FileResult(i, d) in Results(env, a, limit, verifyOnly)
    ensures FileResult(i, d) in Results(env, a, more, verifyOnly)
  {
    MoreMemoryKeepsResults(env, a, limit, more, verifyOnly, i, d);
    if verifyOnly && a.files[i].checksum.kind == ChecksumNone {
      ResultIsOutcome(env, a, limit, verifyOnly, FileResult(i, d));
      VerifyThreshold(env, a, limit, i);
      MoreForChunks(a, limit, more, verifyOnly);
    }
  }

  /** A file that is to be assembled and succeeds under a limit does so under a larger one. */
  lemma AssembledSucceeds(env: Env, a: Archive, limit: int64, more: int64, verifyOnly: bool, i: nat)
    requires 0 <= limit <= more && i < |a.files|
    requires !(verifyOnly && a.files[i].checksum.kind == ChecksumNone)
    requires Succeeds(env.codecs, a.files[i], Outcomes(env, a, limit, verifyOnly)[i])
    ensures Succeeds(env.codecs, a.files[i], Outcomes(env, a, more, verifyOnly)[i])
    ensures Outcomes(env, a, more, verifyOnly)[i].data == Outcomes(env, a, limit, verifyOnly)[i].data
  {
    var refs := Flat(GroupsOf(a));
    var f, g := Start(a, limit, verifyOnly, i), Start(a, more, verifyOnly, i);
    var small, large := ChunkBudget(a, limit, verifyOnly), ChunkBudget(a, more, verifyOnly);
    RunKeeps(env, small, refs, i, f);
    SurvivorStarts(env, small, refs, i, f);
    MoreMemoryStarts(a, limit, more, verifyOnly, i);
    MoreForChunks(a, limit, more, verifyOnly);
    RunRelaxed(env, small, large, refs, i, f, g);
    RunKeeps(env, large, refs, i, g);
  }

  // ---------------------------------------------------------------- where more memory loses a file

  const NO_CODECS := Codecs((_, _) => BadHeader, _ => None, (_, _) => [])

  /** Two files over one stored chunk of four bytes; only the first has a checksum, and it
      declares five bytes. */
  const TWO_FILES := Archive(
    [FileEntry("a", "", "", "", "", "", 0, [], 5, Checksum(ChecksumMD5, []), false, false),
     FileEntry("b", "", "", "", "", "", 0, [], 0, NO_CHECKSUM, false, false)],
    [DataEntry(Chunk(0, 0, 0, 0, 4, Stored, Plaintext), StoredFile(0, 4, NO_CHECKSUM, NoFilter), 4)])

  const FOUR_BYTES: Env :=
    Env(Device(CHUNK_MAGIC + [1, 2, 3, 4], ShortEof), Layout(0, false), None, NO_CODECS)

  lemma FourBytesChunk(limit: int64)
    requires limit >= 0
    ensures ChunkData(FOUR_BYTES, TWO_FILES.entries[0].chunk, limit)
         == if limit >= 4 then Ok([1, 2, 3, 4]) else Err(LimitExceeded)
  {
    var s := EmbeddedStream(FOUR_BYTES.r, 0);
    assert s.data[..4] == CHUNK_MAGIC && s.data[4..] == [1, 2, 3, 4];
    assert Limited(Stream(s.data[4..], s.end), 4) == Stream([1, 2, 3, 4], Eof);
  }

  lemma TwoFilesDemand()
    ensures Placeable(TWO_FILES, 1)
    ensures Placed(TWO_FILES, 1) == EMPTY_ASSEMBLY.(totalSize := 4)
    ensures Demand(TWO_FILES, true) == 5
  {
    var a := TWO_FILES;
    assert Locations(a.files[0]) == [0] && Locations(a.files[1]) == [0];
    assert SizeSum(a.entries, [0]) == SizeSum(a.entries, []) + 4;
    var files := PlacedFiles(a);
    assert files[0] == Placed(a, 0) == EMPTY_ASSEMBLY.(totalSize := 5);
    assert Accepted(a, files, true, 1) == 5;
    assert files[1] == Placed(a, 1);
  }

  /** What verifying reports for TWO_FILES under a limit. */
  function VerifiedTwo(limit: int64): seq<FileResult>
    requires limit >= 0
  {
    Results(FOUR_BYTES, TWO_FILES, limit, true)
  }

  /** Verifying is not monotone in the memory limit: with four bytes the first file's output
      cannot be reserved, so the chunk fits and the second file verifies; with five bytes it
      is reserved, nothing is left for the chunk, and the second file fails. */
  lemma VerifyCanLoseAFile()
    ensures FileResult(1, []) in VerifiedTwo(4)
    ensures FileResult(1, []) !in VerifiedTwo(5)
  {
    SecondFile(4);
    SecondFile(5);
    ReportedSecond(4);
    ReportedSecond(5);
  }

  lemma ReportedSecond(limit: int64)
    requires limit >= 0
    ensures FileResult(1, []) in VerifiedTwo(limit) <==>
            Succeeds(NO_CODECS, TWO_FILES.files[1], Outcomes(FOUR_BYTES, TWO_FILES, limit, true)[1])
  {
    ResultIsOutcome(FOUR_BYTES, TWO_FILES, limit, true, FileResult(1, []));
  }

  lemma SecondFile(limit: int64)
    requires limit == 4 || limit == 5
    ensures Succeeds(NO_CODECS, TWO_FILES.files[1], Outcomes(FOUR_BYTES, TWO_FILES, limit, true)[1]) <==> limit == 4
  {
    var a, env, rest := TWO_FILES, FOUR_BYTES, ChunkBudget(TWO_FILES, limit, true);
    var own := OwnReferencesOnly(env, a, limit, true, 1);
    var start := Start(a, limit, true, 1);
    SecondStart(limit);
    RunKeeps(env, rest, own, 1, start);
    RunSurvives(env, rest, own, 1, start);
    OneReference();
    var ref := RefAt(a, 1, 0);
    assert ref in own;
    assert forall r :: r in own ==> r == ref;
    SecondFits(limit, ref);
  }

  lemma SecondStart(limit: int64)
    requires limit == 4 || limit == 5
    ensures Start(TWO_FILES, limit, true, 1) == EMPTY_ASSEMBLY.(totalSize := 4)
    ensures ChunkBudget(TWO_FILES, limit, true) == if limit == 4 then 4 else 0
  {
    TwoFilesDemand();
  }

  lemma SecondFits(limit: int64, ref: SegmentRef)
    requires (limit == 4 || limit == 5) && ref.entry == TWO_FILES.entries[0] && ref.expectedSize == 4
    ensures Fine(FOUR_BYTES, ChunkBudget(TWO_FILES, limit, true), ref, false, 0) <==> limit == 4
  {
    SecondStart(limit);
    FourBytesChunk(if limit == 4 then 4 else 0);
  }

  lemma OneReference()
    ensures Placeable(TWO_FILES, 1) && Locations(TWO_FILES.files[1]) == [0]
    ensures FileRefs(TWO_FILES, 1) == [RefAt(TWO_FILES, 1, 0)]
    ensures RefAt(TWO_FILES, 1, 0).entry == TWO_FILES.entries[0] && RefAt(TWO_FILES, 1, 0).expectedSize == 4
  {
    TwoFilesDemand();
    assert Locations(TWO_FILES.files[1]) == [0];
  }
}
