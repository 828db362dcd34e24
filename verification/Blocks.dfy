/** Setup blocks (internal/setup/setup.go): a header with a checksum, then the stored bytes in
    pieces of at most 4096, each behind its own checksum.  CRC-32 is a parameter: any function
    from byte strings to 32-bit numbers. */
module Blocks {
  import opened Bytes

  datatype BlockFault = BadBlock | ChecksumMismatch | TooLarge

  datatype Version = Version(major: byte, minor: byte, patch: byte)

  /** versionAtLeast. */
  predicate AtLeast(v: Version, a: byte, b: byte, c: byte) {
    if v.major != a then v.major > a
    else if v.minor != b then v.minor > b
    else v.patch >= c
  }

  const PIECE: nat := 4096

  // ---------------------------------------------------------------- pieces

  /** The canonical framing of x. */
  function Framed(crc: bytes -> uint32, x: bytes): bytes
    decreases |x|
  {
    if x == [] then []
    else
      var n := Min(PIECE, |x|);
      ToLE(crc(x[..n]), 4) + x[..n] + Framed(crc, x[n..])
  }

  function Joined(part: bytes, rest: Result<bytes, BlockFault>): Result<bytes, BlockFault> {
    match rest
    case Ok(x) => Ok(part + x)
    case Err(fault) => Err(fault)
  }

  /** unwrapBlockChunks, piece by piece. */
  function Unwrapped(crc: bytes -> uint32, raw: bytes): Result<bytes, BlockFault>
    decreases |raw|
  {
    if raw == [] then Ok([])
    else if |raw| <= 4 then Err(BadBlock)
    else
      var n := Min(PIECE, |raw| - 4);
      var part := raw[4..4 + n];
      if crc(part) != LE(raw[..4]) then Err(ChecksumMismatch)
      else Joined(part, Unwrapped(crc, raw[4 + n..]))
  }

  lemma JoinedTwice(a: bytes, b: bytes, r: Result<bytes, BlockFault>)
    ensures Joined(a, Joined(b, r)) == Joined(a + b, r)
  {
    if r.Ok? {
      assert a + (b + r.value) == (a + b) + r.value;
    }
  }

  method UnwrapBlockChunks(crc: bytes -> uint32, stored: bytes) returns (r: Result<bytes, BlockFault>)
    ensures r == Unwrapped(crc, stored)
  {
    var raw, out := stored, [];
    assert Unwrapped(crc, stored).Ok? ==> [] + Unwrapped(crc, stored).value == Unwrapped(crc, stored).value;
    while |raw| > 0
      invariant Unwrapped(crc, stored) == Joined(out, Unwrapped(crc, raw))
      decreases |raw|
    {
      if |raw| < 4 {
        return Err(BadBlock);
      }
      var want := LE(raw[..4]);
      var n := Min(PIECE, |raw| - 4);
      if n == 0 {
        return Err(BadBlock);
      }
      var part := raw[4..4 + n];
      if crc(part) != want {
        return Err(ChecksumMismatch);
      }
      JoinedTwice(out, part, Unwrapped(crc, raw[4 + n..]));
      out := out + part;
      raw := raw[4 + n..];
    }
    assert out + [] == out;
    r := Ok(out);
  }

  lemma WordRoundTrip(v: uint32)
    ensures LE(ToLE(v, 4)) == v
  {
    SmallPowers();
    ToLEValue(v, 4);
  }

  /** A piece in front: full, or the last one. */
  lemma FramedFront(crc: bytes -> uint32, part: bytes, rest: bytes)
    requires |part| == PIECE || (0 < |part| < PIECE && rest == [])
    ensures Framed(crc, part + rest) == ToLE(crc(part), 4) + (part + Framed(crc, rest))
  {
    var x := part + rest;
    var n := Min(PIECE, |x|);
    assert x[..n] == part && x[n..] == rest;
  }

  lemma UnwrappedFront(crc: bytes -> uint32, head: bytes, part: bytes, rest: bytes)
    requires |head| == 4 && (|part| == PIECE || (0 < |part| < PIECE && rest == []))
    ensures Unwrapped(crc, head + (part + rest)) ==
      if crc(part) != LE(head) then Err(ChecksumMismatch) else Joined(part, Unwrapped(crc, rest))
  {
    var raw := head + (part + rest);
    var n := Min(PIECE, |raw| - 4);
    assert raw[..4] == head && raw[4..4 + n] == part && raw[4 + n..] == rest;
  }

  lemma FirstPiece(x: bytes) returns (part: bytes, rest: bytes)
    requires x != []
    ensures x == part + rest && |rest| < |x|
    ensures |part| == PIECE || (0 < |part| < PIECE && rest == [])
  {
    var n := Min(PIECE, |x|);
    part, rest := x[..n], x[n..];
  }

  lemma {:induction false} UnwrapsFramed(crc: bytes -> uint32, x: bytes)
    ensures Unwrapped(crc, Framed(crc, x)) == Ok(x)
    decreases |x|
  {
    if x != [] {
      var part, rest := FirstPiece(x);
      FramedFront(crc, part, rest);
      UnwrapsFramed(crc, rest);
      if |part| < PIECE {
        assert Framed(crc, rest) == [];
      }
      UnwrappedFront(crc, ToLE(crc(part), 4), part, Framed(crc, rest));
      WordRoundTrip(crc(part));
    }
  }

  lemma {:induction false} FramesUnwrapped(crc: bytes -> uint32, raw: bytes)
    requires Unwrapped(crc, raw).Ok?
    ensures raw == Framed(crc, Unwrapped(crc, raw).value)
    decreases |raw|
  {
    if raw != [] {
      var head := raw[..4];
      var part, rest := FirstPiece(raw[4..]);
      assert raw == head + (part + rest);
      UnwrappedFront(crc, head, part, rest);
      FramesUnwrapped(crc, rest);
      FramedFront(crc, part, Unwrapped(crc, rest).value);
      LEToLE(head);
    }
  }

  /** Framing is a bijection: a byte string unwraps to x exactly when it is the framing of x,
      whatever the checksum function. */
  lemma FramingIsExact(crc: bytes -> uint32, raw: bytes, x: bytes)
    ensures Unwrapped(crc, raw) == Ok(x) <==> raw == Framed(crc, x)
  {
    UnwrapsFramed(crc, x);
    if Unwrapped(crc, raw) == Ok(x) {
      FramesUnwrapped(crc, raw);
    }
  }

  /** Framing adds four bytes for every started piece. */
  lemma {:induction false} FramedLength(crc: bytes -> uint32, x: bytes)
    ensures |Framed(crc, x)| == |x| + 4 * ((|x| + 4095) / 4096)
    decreases |x|
  {
    if x != [] {
      FramedLength(crc, x[Min(PIECE, |x|)..]);
    }
  }

  // ---------------------------------------------------------------- reading a block

  /** readAt on immutable bytes. */
  function ReadAt(content: bytes, off: int64, n: nat): (r: Result<bytes, BlockFault>)
    ensures r.Ok? ==> |r.value| == n && 0 <= off <= MAX_INT64 - n
  {
    if off < 0 || n > MAX_INT64 - off then Err(BadBlock)
    else if n == 0 then Ok([])
    else if off + n > |content| then Err(BadBlock)
    else Ok(content[off..off + n])
  }

  function HeaderLength(v: Version): (n: nat)
    ensures n == 9 || n == 13
  {
    if AtLeast(v, 6, 7, 0) then 13 else 9
  }

  /** Where the payload is unpacked from: the unwrapped bytes as they are, or through LZMA, or,
      before 4.1.6, through zlib. */
  datatype Unpackers = Unpackers(
    lzma: (bytes, int64) -> Result<bytes, BlockFault>,
    zlib: (bytes, int64) -> Result<bytes, BlockFault>)

  /** The unwrapped bytes of the pieces stored at an offset. */
  function StreamAt(crc: bytes -> uint32, content: bytes, off: int64, stored: nat): Result<bytes, BlockFault> {
    match ReadAt(content, off, stored)
    case Err(fault) => Err(fault)
    case Ok(raw) => Unwrapped(crc, raw)
  }

  /** What a header says: its checksum is right, its size is acceptable, or the fault. */
  function HeaderFault(crc: bytes -> uint32, h: bytes, limit: int64): Option<BlockFault>
    requires |h| == 9 || |h| == 13
  {
    if StoredSize(h) > Wrap64(limit) || StoredSize(h) > MAX_INT64 - |h| then Some(TooLarge)
    else if crc(h[4..]) != LE(h[..4]) then Some(ChecksumMismatch)
    else None
  }

  function StoredSize(h: bytes): nat
    requires |h| == 9 || |h| == 13
  {
    LE(h[4..|h| - 1])
  }

  /** readBlock: the payload and the offset behind the block. */
  function BlockAt(crc: bytes -> uint32, unpackers: Unpackers, content: bytes, off: int64, v: Version, limit: int64)
    : Result<(bytes, nat), BlockFault>
  {
    match ReadAt(content, off, HeaderLength(v))
    case Err(fault) => Err(fault)
    case Ok(h) =>
      match HeaderFault(crc, h, limit)
      case Some(fault) => Err(fault)
      case None =>
        match StreamAt(crc, content, off + |h|, StoredSize(h))
        case Err(fault) => Err(fault)
        case Ok(stream) =>
          match Unpacked(unpackers, stream, h[|h| - 1] != 0, v, limit)
          case Err(fault) => Err(fault)
          case Ok(data) => Ok((data, off + |h| + StoredSize(h)))
  }

  function Unpacked(unpackers: Unpackers, stream: bytes, compressed: bool, v: Version, limit: int64)
    : Result<bytes, BlockFault>
  {
    if !compressed then if |stream| > limit then Err(TooLarge) else Ok(stream)
    else if AtLeast(v, 4, 1, 6) then unpackers.lzma(stream, limit)
    else unpackers.zlib(stream, limit)
  }

  method ReadStream(crc: bytes -> uint32, content: bytes, off: int64, stored: nat)
    returns (r: Result<bytes, BlockFault>)
    ensures r == StreamAt(crc, content, off, stored)
  {
    var raw := ReadAt(content, off, stored);
    if raw.Err? {
      return Err(raw.error);
    }
    r := UnwrapBlockChunks(crc, raw.value);
  }

  method CheckHeader(crc: bytes -> uint32, h: bytes, limit: int64) returns (stored: nat, fault: Option<BlockFault>)
    requires |h| == 9 || |h| == 13
    ensures stored == StoredSize(h) && fault == HeaderFault(crc, h, limit)
  {
    var expected := LE(h[..4]);
    stored := if |h| == 13 then LE(h[4..12]) else LE(h[4..8]);
    if stored > Wrap64(limit) || stored > MAX_INT64 - |h| {
      return stored, Some(TooLarge);
    }
    if crc(h[4..]) != expected {
      return stored, Some(ChecksumMismatch);
    }
    fault := None;
  }

  method Unpack(unpackers: Unpackers, stream: bytes, compressed: bool, v: Version, limit: int64)
    returns (r: Result<bytes, BlockFault>)
    ensures r == Unpacked(unpackers, stream, compressed, v, limit)
  {
    if !compressed {
      if |stream| > limit {
        return Err(TooLarge);
      }
      return Ok(stream);
    }
    if AtLeast(v, 4, 1, 6) {
      r := unpackers.lzma(stream, limit);
    } else {
      r := unpackers.zlib(stream, limit);
    }
  }

  method ReadBlock(crc: bytes -> uint32, unpackers: Unpackers, content: bytes, off: int64, v: Version, limit: int64)
    returns (r: Result<(bytes, nat), BlockFault>)
    ensures r == BlockAt(crc, unpackers, content, off, v, limit)
  {
    var header := ReadAt(content, off, HeaderLength(v));
    if header.Err? {
      return Err(header.error);
    }
    var h := header.value;
    var stored, fault := CheckHeader(crc, h, limit);
    if fault.Some? {
      return Err(fault.value);
    }
    var stream := ReadStream(crc, content, off + |h|, stored);
    if stream.Err? {
      return Err(stream.error);
    }
    var data := Unpack(unpackers, stream.value, h[|h| - 1] != 0, v, limit);
    if data.Err? {
      return Err(data.error);
    }
    r := Ok((data.value, off + |h| + stored));
  }

  // ---------------------------------------------------------------- writing a block

  /** The header fields of an uncompressed block with the given stored size. */
  function HeaderFields(v: Version, stored: nat): (f: bytes)
    ensures |f| == HeaderLength(v) - 4
  {
    ToLE(stored, HeaderLength(v) - 5) + [0]
  }

  /** An uncompressed block with payload x. */
  function WrittenBlock(crc: bytes -> uint32, v: Version, x: bytes): (b: bytes)
    ensures |b| == HeaderLength(v) + |Framed(crc, x)|
  {
    var fields := HeaderFields(v, |Framed(crc, x)|);
    ToLE(crc(fields), 4) + fields + Framed(crc, x)
  }

  /** The stored size of x fits its header field and the limit. */
  predicate Storable(crc: bytes -> uint32, v: Version, x: bytes, limit: int64) {
    && |Framed(crc, x)| <= limit
    && |Framed(crc, x)| <= MAX_INT64 - HeaderLength(v)
    && (HeaderLength(v) == 9 ==> |Framed(crc, x)| < 0x1_0000_0000)
  }

  /** The header at `off` is there and its last byte says "not compressed". */
  predicate SaysUncompressed(content: bytes, off: int64, v: Version) {
    && 0 <= off && off + HeaderLength(v) <= |content|
    && content[off + HeaderLength(v) - 1] == 0
  }

  lemma Parts(check: bytes, size: bytes, stream: bytes)
    ensures var b := check + (size + [0]) + stream;
      var n := |check| + |size| + 1;
      && b[..|check|] == check && b[|check|..n - 1] == size && b[n - 1] == 0
      && b[|check|..n] == size + [0] && b[n..] == stream
  {
    var b, n := check + (size + [0]) + stream, |check| + |size| + 1;
    assert b[|check|..n] == size + [0];
    assert b[|check|..n - 1] == size;
  }

  /** The pieces of a written block. */
  lemma BlockPieces(crc: bytes -> uint32, v: Version, x: bytes, limit: int64)
    requires Storable(crc, v, x, limit)
    ensures var b, n := WrittenBlock(crc, v, x), HeaderLength(v);
      && LE(b[4..n - 1]) == |Framed(crc, x)| && b[n - 1] == 0
      && crc(b[4..n]) == LE(b[..4]) && b[n..] == Framed(crc, x)
  {
    var n, stored := HeaderLength(v), |Framed(crc, x)|;
    var fields := HeaderFields(v, stored);
    Parts(ToLE(crc(fields), 4), ToLE(stored, n - 5), Framed(crc, x));
    WordRoundTrip(crc(fields));
    WordBack(stored, n - 5);
  }

  lemma InTwoParts(content: bytes, lo: nat, mid: nat, hi: nat)
    requires lo <= mid <= hi <= |content|
    ensures content[lo..hi] == content[lo..mid] + content[mid..hi]
    ensures content[lo..mid] == content[lo..hi][..mid - lo] && content[mid..hi] == content[lo..hi][mid - lo..]
  {
  }

  lemma ReadsBytes(content: bytes, off: int64, raw: bytes)
    requires 0 <= off && |content| <= MAX_INT64 && off + |raw| <= |content| && content[off..off + |raw|] == raw
    ensures ReadAt(content, off, |raw|) == Ok(raw)
  {
  }

  lemma BytesRead(content: bytes, off: int64, n: nat, raw: bytes)
    requires ReadAt(content, off, n) == Ok(raw) && n > 0
    ensures 0 <= off && off + n <= |content| && |raw| == n && content[off..off + n] == raw
  {
  }

  lemma StreamIsFramed(crc: bytes -> uint32, content: bytes, off: int64, x: bytes)
    requires 0 <= off && |content| <= MAX_INT64 && off + |Framed(crc, x)| <= |content|
    requires content[off..off + |Framed(crc, x)|] == Framed(crc, x)
    ensures StreamAt(crc, content, off, |Framed(crc, x)|) == Ok(x)
  {
    UnwrapsFramed(crc, x);
    ReadsBytes(content, off, Framed(crc, x));
  }

  lemma HeaderIsWritten(crc: bytes -> uint32, v: Version, x: bytes, limit: int64)
    requires Storable(crc, v, x, limit)
    ensures var h := WrittenBlock(crc, v, x)[..HeaderLength(v)];
      HeaderFault(crc, h, limit) == None && StoredSize(h) == |Framed(crc, x)| && h[|h| - 1] == 0
  {
    var b, n := WrittenBlock(crc, v, x), HeaderLength(v);
    BlockPieces(crc, v, x, limit);
    assert b[..n][4..n - 1] == b[4..n - 1] && b[..n][4..] == b[4..n] && b[..n][..4] == b[..4];
  }

  lemma ReadsWritten(crc: bytes -> uint32, unpackers: Unpackers, content: bytes, off: int64, v: Version,
                     limit: int64, x: bytes)
    requires 0 <= off && |content| <= MAX_INT64 && Storable(crc, v, x, limit)
    requires off + |WrittenBlock(crc, v, x)| <= |content|
    requires content[off..off + |WrittenBlock(crc, v, x)|] == WrittenBlock(crc, v, x)
    ensures BlockAt(crc, unpackers, content, off, v, limit) == Ok((x, off + |WrittenBlock(crc, v, x)|))
  {
    var b, n := WrittenBlock(crc, v, x), HeaderLength(v);
    var h, f := b[..n], Framed(crc, x);
    var mid, next := off + n, off + |b|;
    HeaderIsWritten(crc, v, x, limit);
    assert b[n..] == f by {
      BlockPieces(crc, v, x, limit);
    }
    assert content[off..mid] == h && content[mid..next] == f by {
      InTwoParts(content, off, mid, next);
    }
    ReadsPieces(crc, unpackers, content, off, v, limit, h, x);
  }

  /** The header h and the framed x behind it. */
  lemma ReadsPieces(crc: bytes -> uint32, unpackers: Unpackers, content: bytes, off: int64, v: Version,
                    limit: int64, h: bytes, x: bytes)
    requires 0 <= off && |content| <= MAX_INT64 && |h| == HeaderLength(v)
    requires off + |h| + |Framed(crc, x)| <= |content| && |Framed(crc, x)| <= limit
    requires content[off..off + |h|] == h && content[off + |h|..off + |h| + |Framed(crc, x)|] == Framed(crc, x)
    requires HeaderFault(crc, h, limit) == None && StoredSize(h) == |Framed(crc, x)| && h[|h| - 1] == 0
    ensures BlockAt(crc, unpackers, content, off, v, limit) == Ok((x, off + |h| + |Framed(crc, x)|))
  {
    ReadsBytes(content, off, h);
    StreamIsFramed(crc, content, off + |h|, x);
    FramedLength(crc, x);
    PlainBlock(crc, unpackers, content, off, v, limit, h, x);
  }

  /** A block whose header and stream read well and whose header says uncompressed. */
  lemma PlainBlock(crc: bytes -> uint32, unpackers: Unpackers, content: bytes, off: int64, v: Version,
                   limit: int64, h: bytes, x: bytes)
    requires ReadAt(content, off, HeaderLength(v)) == Ok(h) && HeaderFault(crc, h, limit) == None
    requires StreamAt(crc, content, off + |h|, StoredSize(h)) == Ok(x) && h[|h| - 1] == 0 && |x| <= limit
    ensures BlockAt(crc, unpackers, content, off, v, limit) == Ok((x, off + |h| + StoredSize(h)))
  {
  }

  /** What readBlock went through when it returned x. */
  lemma ReadParts(crc: bytes -> uint32, unpackers: Unpackers, content: bytes, off: int64, v: Version,
                  limit: int64, x: bytes, next: nat) returns (h: bytes, raw: bytes)
    requires SaysUncompressed(content, off, v)
    requires BlockAt(crc, unpackers, content, off, v, limit) == Ok((x, next))
    ensures |h| == HeaderLength(v) && HeaderFault(crc, h, limit) == None && StoredSize(h) == |raw| && h[|h| - 1] == 0
    ensures next == off + |h| + |raw| <= |content|
    ensures content[off..off + |h|] == h && content[off + |h|..next] == raw
    ensures Unwrapped(crc, raw) == Ok(x) && |x| <= limit
  {
    h := ReadAt(content, off, HeaderLength(v)).value;
    BytesRead(content, off, HeaderLength(v), h);
    raw := ReadAt(content, off + |h|, StoredSize(h)).value;
    if |raw| > 0 {
      BytesRead(content, off + |h|, |raw|, raw);
    }
  }

  lemma WritesRead(crc: bytes -> uint32, unpackers: Unpackers, content: bytes, off: int64, v: Version,
                   limit: int64, x: bytes, next: nat)
    requires limit >= 0 && SaysUncompressed(content, off, v)
    requires BlockAt(crc, unpackers, content, off, v, limit) == Ok((x, next))
    ensures Storable(crc, v, x, limit) && next == off + |WrittenBlock(crc, v, x)| <= |content|
    ensures content[off..next] == WrittenBlock(crc, v, x)
  {
    var h, raw := ReadParts(crc, unpackers, content, off, v, limit, x, next);
    FramesUnwrapped(crc, raw);
    WritesHeader(crc, h, raw);
    InTwoParts(content, off, off + |h|, next);
  }

  lemma WritesHeader(crc: bytes -> uint32, h: bytes, raw: bytes)
    requires |h| == 9 || |h| == 13
    requires h[|h| - 1] == 0 && StoredSize(h) == |raw| && crc(h[4..]) == LE(h[..4])
    ensures h == ToLE(crc(h[4..]), 4) + h[4..] && h[4..] == ToLE(|raw|, |h| - 5) + [0]
    ensures |h| == 9 ==> |raw| < 0x1_0000_0000
  {
    FieldBound(h[4..|h| - 1]);
    LEToLE(h[4..|h| - 1]);
    LEToLE(h[..4]);
    assert h[4..] == h[4..|h| - 1] + [0];
    assert h == h[..4] + h[4..];
  }

  lemma FieldBound(w: bytes)
    requires |w| == 4 || |w| == 8
    ensures |w| == 4 ==> LE(w) < 0x1_0000_0000
  {
    SmallPowers();
    LEBound(w);
  }

  /** Blocks are a bijection too: where the header says "not compressed", readBlock returns the
      payload x and the offset `next` exactly when the bytes up to there are the block that is
      written for x, with either header, within the limit. */
  lemma BlockIsExact(crc: bytes -> uint32, unpackers: Unpackers, content: bytes, off: int64, v: Version,
                     limit: int64, x: bytes, next: nat)
    requires limit >= 0 && |content| <= MAX_INT64 && SaysUncompressed(content, off, v)
    ensures BlockAt(crc, unpackers, content, off, v, limit) == Ok((x, next)) <==>
            && Storable(crc, v, x, limit) && next == off + |WrittenBlock(crc, v, x)| <= |content|
            && content[off..next] == WrittenBlock(crc, v, x)
  {
    if BlockAt(crc, unpackers, content, off, v, limit) == Ok((x, next)) {
      WritesRead(crc, unpackers, content, off, v, limit, x, next);
    } else if Storable(crc, v, x, limit) && off + |WrittenBlock(crc, v, x)| <= |content|
              && content[off..off + |WrittenBlock(crc, v, x)|] == WrittenBlock(crc, v, x) {
      ReadsWritten(crc, unpackers, content, off, v, limit, x);
    }
  }
}
