/** Decoding one chunk and one file segment under a memory limit (internal/stream/stream.go).

    Decompressors and hashes are parameters (`Codecs`): deterministic functions of the bytes
    they read.  What the limit does to them is not assumed but follows from the two places
    where the source looks at it, checkDictionary and readAllLimit. */
module Decoding {
  import opened Bytes
  import opened Format
  import opened Slices
  import opened Filters

  datatype Fault =
    | CorruptData
    | LimitExceeded
    | BadChecksum
    | UnsupportedCompression
    | PasswordRequired
    | SliceMissing

  /** What a decompressor writes, and whether it ends in EOF or in an error. */
  datatype Output = Output(data: bytes, clean: bool)

  /** A decompressor on a given input: its header may be unreadable; otherwise it may name a
      dictionary size, may still fail to start, and then writes its output. */
  datatype Decoder = BadHeader | Decoder(dictionary: Option<uint32>, starts: bool, output: Output)

  datatype Codecs = Codecs(
    decompress: (Compression, Stream) -> Decoder,
    inflate: bytes -> Option<Output>,
    digest: (ChecksumType, bytes) -> bytes)

  /** What an extraction reads: the executable, the slices, and the library codecs. */
  datatype Env = Env(r: Device, layout: Layout, slices: Option<Provider>, codecs: Codecs)

  // ---------------------------------------------------------------- readAllLimit

  datatype ReadStatus = More | AtEof | Failed

  /** An io.Reader over a decompressor's output that makes progress until it is done: how many
      bytes one call gives, and whether the last bytes come with the final status, is open. */
  class OutputReader {
    const output: Output
    var pos: nat

    ghost predicate Valid()
      reads this
    {
      pos <= |output.data|
    }

    constructor (output: Output)
      ensures Valid() && pos == 0 && this.output == output
    {
      this.output, pos := output, 0;
    }

    method Read(room: nat) returns (got: bytes, status: ReadStatus)
      requires Valid() && room > 0
      modifies this
      ensures Valid() && pos == old(pos) + |got| && |got| <= room
      ensures got == output.data[old(pos)..pos]
      ensures status != More ==> pos == |output.data| && (status == AtEof <==> output.clean)
      ensures got == [] ==> status != More
    {
      var left := |output.data| - pos;
      var n := 0;
      if left > 0 {
        var some: nat :| 1 <= some <= room && some <= left;
        n := some;
      }
      got := output.data[pos..pos + n];
      pos := pos + n;
      var early: bool := *;
      if pos == |output.data| && (early || n == 0) {
        status := if output.clean then AtEof else Failed;
      } else {
        status := More;
      }
    }
  }

  /** The whole output if it fits the limit and ends cleanly.  None is the reader's own
      error, which the callers report as corrupt data. */
  function AllWithin(output: Output, limit: int): Result<bytes, Option<Fault>> {
    if limit < 0 || |output.data| > limit then Err(Some(LimitExceeded))
    else if output.clean then Ok(output.data)
    else Err(None)
  }

  const MAX_READ_BUFFER: nat := 0x8000

  /** readAllLimit: however the reader splits its output, the result depends only on the
      output and the limit. */
  method ReadAllLimit(r: OutputReader, limit: int64) returns (result: Result<bytes, Option<Fault>>)
    requires r.Valid() && r.pos == 0
    modifies r
    ensures result == AllWithin(r.output, limit)
  {
    if limit < 0 {
      return Err(Some(LimitExceeded));
    }
    if limit == 0 {
      var one, end := r.Read(1);
      if |one| > 0 {
        return Err(Some(LimitExceeded));
      }
      if end == Failed {
        return Err(None);
      }
      return Ok([]);
    }
    var all: bytes := [];
    while true
      invariant r.Valid() && all == r.output.data[..r.pos] && |all| <= limit
      decreases |r.output.data| - r.pos
    {
      var got, status := r.Read(MAX_READ_BUFFER);
      if |got| > 0 {
        if |all| + |got| > limit {
          return Err(Some(LimitExceeded));
        }
        all := all + got;
      }
      if status == AtEof {
        assert all == r.output.data;
        return Ok(all);
      }
      if status == Failed {
        return Err(None);
      }
    }
  }

  // ---------------------------------------------------------------- one chunk

  const CHUNK_MAGIC: bytes := [0x7a, 0x6c, 0x62, 0x1a]

  /** io.LimitReader: at most n bytes, and EOF once they have been read. */
  function Limited(s: Stream, n: nat): Stream {
    if n <= |s.data| then Stream(s.data[..n], Eof) else s
  }

  /** newChunkDecoder; a stored chunk is its own output. */
  function ChunkDecoder(codecs: Codecs, method_: Compression, source: Stream): Decoder {
    if method_ == Stored then Decoder(None, true, Output(source.data, source.end == Eof))
    else codecs.decompress(method_, source)
  }

  /** checkDictionary, where an int is 64 bits wide. */
  predicate DictionaryFits(dict: uint32, limit: int64) {
    dict <= MAX_INT64 && dict <= limit
  }

  /** The decoder's output under a memory limit. */
  function Decoded(d: Decoder, limit: int64): Result<bytes, Fault>
    requires limit >= 0
  {
    if d.BadHeader? then Err(CorruptData)
    else if d.dictionary.Some? && !DictionaryFits(d.dictionary.value, limit) then Err(LimitExceeded)
    else if !d.starts then Err(CorruptData)
    else
      match AllWithin(d.output, limit)
      case Ok(data) => Ok(data)
      case Err(Some(fault)) => Err(fault)
      case Err(None) => Err(CorruptData)
  }

  /** decodeChunk on an unencrypted archive, up to the decoder; this part knows no limit. */
  function DecoderOf(env: Env, chunk: Chunk): Result<Decoder, Fault> {
    match ChunkStream(env.r, env.layout, chunk, env.slices)
    case Err(MissingSlice) => Err(SliceMissing)
    case Err(_) => Err(CorruptData)
    case Ok(s) =>
      if |s.data| < 4 || s.data[..4] != CHUNK_MAGIC then Err(CorruptData)
      else if chunk.encryption != Plaintext then Err(PasswordRequired)
      else if chunk.compression == UnknownCompression then Err(UnsupportedCompression)
      else
        var source := Limited(Stream(s.data[4..], s.end), Min(chunk.size, MAX_INT64));
        Ok(ChunkDecoder(env.codecs, chunk.compression, source))
  }

  /** decodeChunk on an unencrypted archive: a function of the chunk and the limit. */
  function ChunkData(env: Env, chunk: Chunk, limit: int64): Result<bytes, Fault>
    requires limit >= 0
  {
    match DecoderOf(env, chunk)
    case Err(fault) => Err(fault)
    case Ok(d) => Decoded(d, limit)
  }

  /** Reads what a decoder may read of a source, up to n bytes. */
  method ReadLimited(source: SliceSource, n: nat) returns (s: Stream)
    requires source.Valid()
    modifies source
    ensures source.Valid() && s == Limited(old(source.Rest()), n)
  {
    var got: bytes := [];
    ghost var whole := source.Rest();
    assert Prepend([], whole) == whole;
    while |got| < n
      invariant source.Valid() && |got| <= n
      invariant whole == Prepend(got, source.Rest())
      decreases n - |got|
    {
      var buffer := new byte[Min(n - |got|, MAX_READ_BUFFER)];
      var k, err := source.Read(buffer);
      PrependTwice(got, buffer[..k], source.Rest());
      got := got + buffer[..k];
      if err.Some? {
        assert source.Rest().data == [];
        return Stream(got, err.value);
      }
    }
    assert whole.data[..n] == got;
    s := Stream(got, Eof);
  }

  /** decodeChunk, from opening the slices to the decompressed bytes. */
  method DecodeChunk(env: Env, chunk: Chunk, limit: int64) returns (result: Result<bytes, Fault>)
    requires limit >= 0
    ensures result == ChunkData(env, chunk, limit)
  {
    var opening := NewSliceSource(env.r, env.layout, chunk, env.slices);
    if opening.Err? {
      return Err(if opening.error == MissingSlice then SliceMissing else CorruptData);
    }
    var base := opening.value;
    ghost var s := base.Rest();
    var magic := new byte[4];
    var n, _ := base.Read(magic);
    assert s.data[..n] == magic[..n] && base.Rest().data == s.data[n..];
    if n < 4 || magic[..] != CHUNK_MAGIC {
      assert n == 4 ==> magic[..4] == magic[..];
      return Err(CorruptData);
    }
    assert magic[..4] == magic[..];
    if chunk.encryption != Plaintext {
      return Err(PasswordRequired);
    }
    if chunk.compression == UnknownCompression {
      return Err(UnsupportedCompression);
    }
    var source := ReadLimited(base, Min(chunk.size, MAX_INT64));
    var decoder := ChunkDecoder(env.codecs, chunk.compression, source);
    if decoder.BadHeader? {
      return Err(CorruptData);
    }
    if decoder.dictionary.Some? && !DictionaryFits(decoder.dictionary.value, limit) {
      return Err(LimitExceeded);
    }
    if !decoder.starts {
      return Err(CorruptData);
    }
    var reader := new OutputReader(decoder.output);
    var all := ReadAllLimit(reader, limit);
    match all
    case Ok(data) => result := Ok(data);
    case Err(Some(fault)) => result := Err(fault);
    case Err(None) => result := Err(CorruptData);
  }

  // ---------------------------------------------------------------- checksums

  function Reversed4(s: bytes): bytes
    requires |s| == 4
  {
    [s[3], s[2], s[1], s[0]]
  }

  /** crypto.Sum; the password checksum type has no hash and sums to nothing. */
  function Sum(codecs: Codecs, kind: ChecksumType, data: bytes): bytes {
    if kind == ChecksumNone || kind == ChecksumPBKDF2SHA256XChaCha20 then [] else codecs.digest(kind, data)
  }

  /** crypto.EqualChecksum: a 32-bit sum may be stored in either byte order. */
  predicate EqualChecksum(kind: ChecksumType, got: bytes, want: bytes) {
    if kind == ChecksumNone then true
    else if got == want then true
    else (kind == ChecksumAdler32 || kind == ChecksumCRC32) && |want| == 4 && got == Reversed4(want)
  }

  predicate Verified(codecs: Codecs, checksum: Checksum, data: bytes) {
    checksum.kind == ChecksumNone || EqualChecksum(checksum.kind, Sum(codecs, checksum.kind, data), checksum.data)
  }

  // ---------------------------------------------------------------- one file segment

  /** The bytes behind the file's filter, before the checksum. */
  function FilteredData(codecs: Codecs, raw: bytes, filter: FileFilter, limit: int64): Result<bytes, Fault> {
    match filter
    case NoFilter => Ok(raw)
    case Instruction4108 => if |raw| > limit then Err(LimitExceeded) else Ok(Decoded4108(raw))
    case Instruction5200 => if |raw| > limit then Err(LimitExceeded) else Ok(Decoded5200(raw, false))
    case Instruction5309 => if |raw| > limit then Err(LimitExceeded) else Ok(Decoded5200(raw, true))
    case ZlibFilter =>
      match codecs.inflate(raw)
      case None => Err(CorruptData)
      case Some(output) =>
        match AllWithin(output, limit)
        case Ok(data) => Ok(data)
        case Err(Some(fault)) => Err(fault)
        case Err(None) => Err(CorruptData)
  }

  /** decodeFileSegment: a function of the chunk's bytes, the stored file and the limit. */
  function SegmentData(codecs: Codecs, chunk: bytes, file: StoredFile, limit: int64): Result<bytes, Fault> {
    if file.offset > |chunk| || file.size > |chunk| - file.offset then Err(CorruptData)
    else
      var raw := chunk[file.offset..file.offset + file.size];
      match FilteredData(codecs, raw, file.filter, limit)
      case Err(fault) => Err(fault)
      case Ok(data) =>
        if Verified(codecs, file.checksum, if file.filter == ZlibFilter then raw else data) then Ok(data)
        else Err(BadChecksum)
  }

  method DecodeFileSegment(codecs: Codecs, chunk: bytes, file: StoredFile, limit: int64)
    returns (result: Result<bytes, Fault>)
    ensures result == SegmentData(codecs, chunk, file, limit)
  {
    if file.offset > |chunk| || file.size > |chunk| - file.offset {
      return Err(CorruptData);
    }
    var raw := chunk[file.offset..file.offset + file.size];
    var data: bytes := raw;
    match file.filter {
      case NoFilter =>
      case Instruction4108 =>
        if limit < 0 || |raw| > limit {
          return Err(LimitExceeded);
        }
        data := DecodeInstruction4108(raw);
      case Instruction5200 =>
        if limit < 0 || |raw| > limit {
          return Err(LimitExceeded);
        }
        data := DecodeInstruction5200(raw, false);
      case Instruction5309 =>
        if limit < 0 || |raw| > limit {
          return Err(LimitExceeded);
        }
        data := DecodeInstruction5200(raw, true);
      case ZlibFilter =>
        var z := codecs.inflate(raw);
        if z.None? {
          return Err(CorruptData);
        }
        var reader := new OutputReader(z.value);
        var all := ReadAllLimit(reader, limit);
        if all.Err? {
          return Err(if all.error.Some? then all.error.value else CorruptData);
        }
        data := all.value;
    }
    if file.checksum.kind != ChecksumNone {
      var checksumData := if file.filter == ZlibFilter then raw else data;
      if !EqualChecksum(file.checksum.kind, Sum(codecs, file.checksum.kind, checksumData), file.checksum.data) {
        return Err(BadChecksum);
      }
    }
    result := Ok(data);
  }

  // ---------------------------------------------------------------- without a limit

  /** What a decoder makes of its input if nothing limits it. */
  function Unlimited(d: Decoder): Option<bytes> {
    if d.Decoder? && d.starts && d.output.clean then Some(d.output.data) else None
  }

  /** The memory a decoder asks for: its dictionary, and its output. */
  function DecoderNeed(d: Decoder): nat {
    if d.BadHeader? then 0
    else
      var output := |d.output.data|;
      if d.dictionary.Some? && d.dictionary.value > output then d.dictionary.value else output
  }

  function FreeChunk(env: Env, chunk: Chunk): Option<bytes> {
    var d := DecoderOf(env, chunk);
    if d.Ok? then Unlimited(d.value) else None
  }

  function ChunkNeed(env: Env, chunk: Chunk): nat {
    var d := DecoderOf(env, chunk);
    if d.Ok? then DecoderNeed(d.value) else 0
  }

  /** A filter that nothing limits. */
  function FreeFiltered(codecs: Codecs, raw: bytes, filter: FileFilter): Option<bytes> {
    match filter
    case NoFilter => Some(raw)
    case Instruction4108 => Some(Decoded4108(raw))
    case Instruction5200 => Some(Decoded5200(raw, false))
    case Instruction5309 => Some(Decoded5200(raw, true))
    case ZlibFilter =>
      var output := codecs.inflate(raw);
      if output.Some? && output.value.clean then Some(output.value.data) else None
  }

  function FreeSegment(codecs: Codecs, chunk: bytes, file: StoredFile): Option<bytes> {
    if file.offset > |chunk| || file.size > |chunk| - file.offset then None
    else
      var raw := chunk[file.offset..file.offset + file.size];
      var data := FreeFiltered(codecs, raw, file.filter);
      if data.Some? && Verified(codecs, file.checksum, if file.filter == ZlibFilter then raw else data.value) then data
      else None
  }

  /** The memory a filter asks for: its output. */
  function SegmentNeed(codecs: Codecs, chunk: bytes, file: StoredFile): nat {
    var data := FreeSegment(codecs, chunk, file);
    if data.Some? && file.filter != NoFilter then |data.value| else 0
  }

  // ---------------------------------------------------------------- what a limit does

  /** The limit is a threshold: a chunk decodes under it exactly if it decodes without one and
      needs no more, and then to the same bytes. */
  lemma ChunkThreshold(env: Env, chunk: Chunk, limit: int64)
    requires limit >= 0
    ensures ChunkData(env, chunk, limit).Ok? <==> FreeChunk(env, chunk).Some? && ChunkNeed(env, chunk) <= limit
    ensures ChunkData(env, chunk, limit).Ok? ==> FreeChunk(env, chunk) == Some(ChunkData(env, chunk, limit).value)
    ensures FreeChunk(env, chunk).Some? ==> |FreeChunk(env, chunk).value| <= ChunkNeed(env, chunk)
  {
  }

  lemma FilterThreshold(codecs: Codecs, raw: bytes, filter: FileFilter, limit: int64)
    ensures var free, data := FreeFiltered(codecs, raw, filter), FilteredData(codecs, raw, filter, limit);
      && (data.Ok? <==> free.Some? && (filter == NoFilter || |free.value| <= limit))
      && (data.Ok? ==> free == Some(data.value))
      && (free.Some? && filter != ZlibFilter ==> |free.value| == |raw|)
  {
  }

  /** The same for a segment; without a zlib filter it has the stored size, as the x86 filters
      keep the length of what they are given. */
  lemma SegmentThreshold(codecs: Codecs, chunk: bytes, file: StoredFile, limit: int64)
    ensures var free, data := FreeSegment(codecs, chunk, file), SegmentData(codecs, chunk, file, limit);
      && (data.Ok? <==> free.Some? && (file.filter == NoFilter || SegmentNeed(codecs, chunk, file) <= limit))
      && (data.Ok? ==> free == Some(data.value))
      && (free.Some? && file.filter != ZlibFilter ==> |free.value| == file.size)
  {
    if file.offset <= |chunk| && file.size <= |chunk| - file.offset {
      FilterThreshold(codecs, chunk[file.offset..file.offset + file.size], file.filter, limit);
    }
  }
}
