/** What the checksums of internal/stream/stream.go guarantee, from the digest function alone.

    A segment is returned exactly if its digest answers the stored one, and a file exactly if
    its data does; a checksum fault is reported only if they do not. */
module Checksums {
  import opened Bytes
  import opened Format
  import opened Filters
  import opened Decoding
  import opened Grouping
  import opened Extraction
  import opened Refinement

  /** The digest of the data is the stored one.  A 32-bit sum may be stored in either byte order;
      the kind that only passwords use has no digest. */
  predicate Answers(codecs: Codecs, checksum: Checksum, data: bytes) {
    var got, want := codecs.digest(checksum.kind, data), checksum.data;
    match checksum.kind
    case ChecksumNone => true
    case ChecksumMD5 => got == want
    case ChecksumSHA1 => got == want
    case ChecksumSHA256 => got == want
    case ChecksumAdler32 => got == want || InReverse(got, want)
    case ChecksumCRC32 => got == want || InReverse(got, want)
    case ChecksumPBKDF2SHA256XChaCha20 => want == []
  }

  predicate InReverse(got: bytes, want: bytes) {
    |got| == |want| == 4 && forall k :: 0 <= k < 4 ==> got[k] == want[3 - k]
  }

  lemma VerifiedAnswers(codecs: Codecs, checksum: Checksum, data: bytes)
    ensures Verified(codecs, checksum, data) <==> Answers(codecs, checksum, data)
  {
    var want := checksum.data;
    if |want| == 4 {
      assert InReverse(codecs.digest(checksum.kind, data), want) ==>
          codecs.digest(checksum.kind, data) == [want[3], want[2], want[1], want[0]];
    }
  }

  // ---------------------------------------------------------------- one segment

  /** Does d come out of the filter over these stored bytes?  For an x86 filter, they are what
      its encoder makes of d. */
  predicate ComesFrom(codecs: Codecs, filter: FileFilter, raw: bytes, d: bytes) {
    match filter
    case NoFilter => d == raw
    case Instruction4108 => Encoded4108(d) == raw
    case Instruction5200 => Encoded5200(d, false) == raw
    case Instruction5309 => Encoded5200(d, true) == raw
    case ZlibFilter => codecs.inflate(raw) == Some(Output(d, true))
  }

  lemma FiltersTo(codecs: Codecs, raw: bytes, filter: FileFilter, limit: int64, d: bytes)
    ensures FilteredData(codecs, raw, filter, limit) == Ok(d)
       <==> ComesFrom(codecs, filter, raw, d) && (filter == NoFilter || |d| <= limit)
  {
    Bijection4108(raw);
    Bijection4108(d);
    Bijection5200(raw, false);
    Bijection5200(d, false);
    Bijection5200(raw, true);
    Bijection5200(d, true);
  }

  /** The stored bytes of a file lie in its chunk. */
  predicate InChunk(chunk: bytes, file: StoredFile) {
    file.offset + file.size <= |chunk|
  }

  /** A segment is d exactly if its stored bytes lie in the chunk, d comes from them, fits the
      memory limit if the filter has to make it, and the digest, of the stored bytes under a zlib
      filter and otherwise of d, answers the stored one. */
  lemma SegmentIsChecked(codecs: Codecs, chunk: bytes, file: StoredFile, limit: int64, d: bytes)
    requires InChunk(chunk, file)
    ensures var raw := chunk[file.offset..file.offset + file.size];
      SegmentData(codecs, chunk, file, limit) == Ok(d) <==>
      && ComesFrom(codecs, file.filter, raw, d) && (file.filter == NoFilter || |d| <= limit)
      && Answers(codecs, file.checksum, if file.filter == ZlibFilter then raw else d)
  {
    var raw := chunk[file.offset..file.offset + file.size];
    FiltersTo(codecs, raw, file.filter, limit, d);
    VerifiedAnswers(codecs, file.checksum, if file.filter == ZlibFilter then raw else d);
  }

  /** A segment has a checksum fault exactly if everything else is in order and the digest does
      not answer. */
  lemma SegmentMismatch(codecs: Codecs, chunk: bytes, file: StoredFile, limit: int64)
    ensures SegmentData(codecs, chunk, file, limit) == Err(BadChecksum) <==>
      InChunk(chunk, file) && exists d :: WrongDigest(codecs, chunk, file, limit, d)
  {
    if InChunk(chunk, file) {
      var raw := chunk[file.offset..file.offset + file.size];
      var data := FilteredData(codecs, raw, file.filter, limit);
      if data.Ok? {
        FiltersTo(codecs, raw, file.filter, limit, data.value);
        VerifiedAnswers(codecs, file.checksum, if file.filter == ZlibFilter then raw else data.value);
      }
      forall d | WrongDigest(codecs, chunk, file, limit, d)
        ensures SegmentData(codecs, chunk, file, limit) == Err(BadChecksum)
      {
        FiltersTo(codecs, raw, file.filter, limit, d);
      }
      assert SegmentData(codecs, chunk, file, limit) == Err(BadChecksum) ==>
          data.Ok? && WrongDigest(codecs, chunk, file, limit, data.value);
    }
  }

  predicate WrongDigest(codecs: Codecs, chunk: bytes, file: StoredFile, limit: int64, d: bytes)
    requires InChunk(chunk, file)
  {
    var raw := chunk[file.offset..file.offset + file.size];
    && ComesFrom(codecs, file.filter, raw, d) && (file.filter == NoFilter || |d| <= limit)
    && !Answers(codecs, file.checksum, if file.filter == ZlibFilter then raw else d)
  }

  /** The other two faults: the limit is exceeded exactly by a filter's output that does not fit,
      and a segment is corrupt exactly if it is not in its chunk or does not inflate. */
  lemma SegmentFaults(codecs: Codecs, chunk: bytes, file: StoredFile, limit: int64)
    ensures SegmentData(codecs, chunk, file, limit) == Err(LimitExceeded) <==>
      && InChunk(chunk, file) && file.filter != NoFilter
      && if file.filter != ZlibFilter then file.size > limit
         else
           var z := codecs.inflate(chunk[file.offset..file.offset + file.size]);
           z.Some? && |z.value.data| > limit
    ensures SegmentData(codecs, chunk, file, limit) == Err(CorruptData) <==>
      || !InChunk(chunk, file)
      || (file.filter == ZlibFilter
          && var z := codecs.inflate(chunk[file.offset..file.offset + file.size]);
             z.None? || (|z.value.data| <= limit && !z.value.clean))
  {
  }

  // ---------------------------------------------------------------- one file

  /** What Extract returns as the data of a file answers the checksum of the file. */
  lemma ReturnedIsChecked(env: Env, a: Archive, limit: int64, i: nat, d: bytes)
    requires limit >= 0 && i < |a.files| && FileResult(i, d) in Results(env, a, limit, false)
    ensures Answers(env.codecs, a.files[i].checksum, d)
  {
    IsExtracted(env, a, limit, i, d);
    VerifiedAnswers(env.codecs, a.files[i].checksum, d);
  }

  /** A file of the table that is neither skipped nor failed. */
  lemma ReportIsChecked(codecs: Codecs, a: Archive, files: seq<FileAssembly>, verifyOnly: bool, i: nat, f: FileAssembly)
    requires i < |files| == |a.files| && forall j :: 0 <= j < |files| ==> FaultKnown(files[j])
    requires f == files[i] && !f.skip && !f.failed
    requires a.files[i].checksum.kind != ChecksumNone ==> |f.data| == f.totalSize
    ensures var report := Reported(codecs, a, files, verifyOnly, |files|);
      var answers := Answers(codecs, a.files[i].checksum, f.data);
      && (FileResult(i, if verifyOnly then [] else f.data) in report.results <==> answers)
      && (FileFailure(i, BadChecksum) in report.failures <==> !answers)
  {
    VerifiedAnswers(codecs, a.files[i].checksum, f.data);
    ResultsAreExact(codecs, a, files, verifyOnly, |files|, FileResult(i, if verifyOnly then [] else f.data));
    FaultsAreExact(codecs, a, files, verifyOnly, |files|, i, BadChecksum);
  }

  /** A file whose segments are all in place is returned, by Extract or Verify, exactly if what
      has been assembled answers its checksum; otherwise it has a checksum fault. */
  lemma AssembledIsChecked(env: Env, a: Archive, limit: int64, verifyOnly: bool, i: nat, f: FileAssembly)
    requires limit >= 0 && i < |a.files| && f == Outcomes(env, a, limit, verifyOnly)[i] && !f.skip && !f.failed
    ensures var answers := Answers(env.codecs, a.files[i].checksum, f.data);
      && (FileResult(i, if verifyOnly then [] else f.data) in Results(env, a, limit, verifyOnly) <==> answers)
      && (FileFailure(i, BadChecksum) in Failures(env, a, limit, verifyOnly) <==> !answers)
  {
    OutcomeShape(env, a, limit, verifyOnly, i);
    StartShape(a, limit, verifyOnly, i);
    FaultsAreKnown(env, a, limit, verifyOnly);
    ReportIsChecked(env.codecs, a, Outcomes(env, a, limit, verifyOnly), verifyOnly, i, f);
  }
}
