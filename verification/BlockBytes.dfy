/** Blocks and data entries of internal/setup/setup.go, byte by byte: which versions have which
    layout, where a framing keeps each byte, and where a record keeps each field. */
module BlockBytes {
  import opened Bytes
  import opened Format
  import FilterBytes
  import opened Blocks
  import opened Records
  import opened Words

  // ---------------------------------------------------------------- versions

  /** A version as one number, and the number of a version a.b.c. */
  function Code(v: Version): nat {
    0x1_0000 * v.major as int + 0x100 * v.minor as int + v.patch as int
  }

  /** Versions are ordered like their numbers. */
  lemma VersionOrder(v: Version, a: byte, b: byte, c: byte)
    ensures AtLeast(v, a, b, c) <==> Code(v) >= 0x1_0000 * a as int + 0x100 * b as int + c as int
  {
  }

  // ---------------------------------------------------------------- pieces

  /** Piece q of x: 4096 bytes, the last one perhaps fewer. */
  function Piece(x: bytes, q: nat): bytes
    requires 4096 * q <= |x|
  {
    x[4096 * q..Min(4096 * (q + 1), |x|)]
  }

  lemma PieceBehind(x: bytes, q: nat)
    requires |x| >= 4096 && 4096 * (q + 1) <= |x|
    ensures Piece(x[4096..], q) == Piece(x, q + 1)
  {
    var lo, hi := 4096 * q, Min(4096 * (q + 1), |x| - 4096);
    Shifted(x, 4096, lo, hi - lo);
    assert Piece(x, q + 1) == x[4096 + lo..4096 + hi];
  }

  lemma FirstPieceFramed(crc: bytes -> uint32, x: bytes)
    requires x != []
    ensures var f, part := Framed(crc, x), Piece(x, 0);
      && |f| >= 4 + |part| && LE(f[..4]) == crc(part) && f[4..4 + |part|] == part
      && f[4 + |part|..] == Framed(crc, x[|part|..])
  {
    var part := Piece(x, 0);
    assert part == x[..|part|];
    ThreeParts(ToLE(crc(part), 4), part, Framed(crc, x[|part|..]));
    WordRoundTrip(crc(part));
  }

  lemma ThreeParts(a: bytes, b: bytes, c: bytes)
    ensures var s := a + b + c; s[..|a|] == a && s[|a|..|a| + |b|] == b && s[|a| + |b|..] == c
  {
  }

  /** Does a framing f have this piece, behind its checksum, at `at`? */
  predicate HoldsPiece(crc: bytes -> uint32, f: bytes, at: nat, piece: bytes) {
    at + 4 + |piece| <= |f| && LE(f[at..at + 4]) == crc(piece) && f[at + 4..at + 4 + |piece|] == piece
  }

  lemma HoldsFurther(crc: bytes -> uint32, f: bytes, lo: nat, at: nat, piece: bytes)
    requires lo <= |f| && HoldsPiece(crc, f[lo..], at, piece)
    ensures HoldsPiece(crc, f, lo + at, piece)
  {
    Shifted(f, lo, at, 4);
    Shifted(f, lo, at + 4, |piece|);
  }

  /** Piece q of a framing stands behind its checksum, at 4100 q. */
  lemma {:induction false} FramedPiece(crc: bytes -> uint32, x: bytes, q: nat)
    requires 4096 * q < |x|
    ensures HoldsPiece(crc, Framed(crc, x), 4100 * q, Piece(x, q))
    decreases q
  {
    var f := Framed(crc, x);
    FirstPieceFramed(crc, x);
    if q > 0 {
      FramedPiece(crc, x[4096..], q - 1);
      PieceBehind(x, q - 1);
      HoldsFurther(crc, f, 4100, 4100 * (q - 1), Piece(x, q));
    }
  }

  lemma Shifted(f: bytes, lo: nat, at: nat, n: nat)
    requires lo + at + n <= |f|
    ensures f[lo..][at..at + n] == f[lo + at..lo + at + n]
  {
  }

  // ---------------------------------------------------------------- blocks

  /** The length of a block's header: a checksum, a size of eight bytes from 6.7.0 on and of four
      before, and a flag. */
  function HeaderSize(v: Version): nat {
    if Code(v) >= 0x06_0700 then 13 else 9
  }

  /** A block at off: its header h, whose size and checksum are right, and behind it the framing
      of a stream. */
  predicate IsBlock(crc: bytes -> uint32, content: bytes, off: int64, v: Version, limit: int64, next: nat,
                    stream: bytes, flag: byte) {
    var n := HeaderSize(v);
    && 0 <= off && off + n <= next <= |content|
    && var h, raw := content[off..off + n], content[off + n..next];
       && LE(h[4..n - 1]) == |raw| <= limit && LE(h[..4]) == crc(h[4..])
       && raw == Framed(crc, stream) && h[n - 1] == flag
  }

  /** The payload of a block with this stream: the stream itself if the flag is 0, and otherwise
      what LZMA makes of it, or zlib before 4.1.6. */
  predicate IsPayload(unpackers: Unpackers, v: Version, limit: int64, stream: bytes, flag: byte, x: bytes) {
    if flag == 0 then x == stream && |x| <= limit
    else if Code(v) >= 0x04_0106 then unpackers.lzma(stream, limit) == Ok(x)
    else unpackers.zlib(stream, limit) == Ok(x)
  }

  lemma SizesAgree(v: Version)
    ensures HeaderSize(v) == HeaderLength(v)
    ensures AtLeast(v, 4, 1, 6) <==> Code(v) >= 0x04_0106
  {
    VersionOrder(v, 6, 7, 0);
    VersionOrder(v, 4, 1, 6);
  }

  lemma PayloadIs(unpackers: Unpackers, v: Version, limit: int64, stream: bytes, flag: byte, x: bytes)
    ensures Unpacked(unpackers, stream, flag != 0, v, limit) == Ok(x)
       <==> IsPayload(unpackers, v, limit, stream, flag, x)
  {
    SizesAgree(v);
  }

  /** What stands in the block that readBlock has read. */
  lemma ReadIsBlock(crc: bytes -> uint32, unpackers: Unpackers, content: bytes, off: int64, v: Version,
                    limit: int64, x: bytes, next: nat) returns (stream: bytes, flag: byte)
    requires limit >= 0 && BlockAt(crc, unpackers, content, off, v, limit) == Ok((x, next))
    ensures IsBlock(crc, content, off, v, limit, next, stream, flag)
    ensures IsPayload(unpackers, v, limit, stream, flag, x)
  {
    SizesAgree(v);
    var h := ReadAt(content, off, HeaderLength(v)).value;
    BytesRead(content, off, HeaderLength(v), h);
    var raw := ReadAt(content, off + |h|, StoredSize(h)).value;
    if |raw| > 0 {
      BytesRead(content, off + |h|, |raw|, raw);
    }
    stream, flag := Unwrapped(crc, raw).value, h[|h| - 1];
    FramesUnwrapped(crc, raw);
    PayloadIs(unpackers, v, limit, stream, flag, x);
  }

  lemma BlockIsReadBack(crc: bytes -> uint32, unpackers: Unpackers, content: bytes, off: int64, v: Version,
                        limit: int64, x: bytes, next: nat, stream: bytes, flag: byte)
    requires limit >= 0 && |content| <= MAX_INT64
    requires IsBlock(crc, content, off, v, limit, next, stream, flag)
    requires IsPayload(unpackers, v, limit, stream, flag, x)
    ensures BlockAt(crc, unpackers, content, off, v, limit) == Ok((x, next))
  {
    SizesAgree(v);
    var n := HeaderSize(v);
    var h := content[off..off + n];
    ReadsBytes(content, off, h);
    HeaderIsGood(crc, h, limit, |Framed(crc, stream)|);
    StreamIsFramed(crc, content, off + n, stream);
    PayloadIs(unpackers, v, limit, stream, flag, x);
    Assembled(crc, unpackers, content, off, v, limit, h, stream, x);
  }

  lemma HeaderIsGood(crc: bytes -> uint32, h: bytes, limit: int64, stored: nat)
    requires |h| == 9 || |h| == 13
    requires LE(h[4..|h| - 1]) == stored <= limit && stored <= MAX_INT64 - |h| && LE(h[..4]) == crc(h[4..])
    ensures HeaderFault(crc, h, limit) == None && StoredSize(h) == stored
  {
  }

  lemma Assembled(crc: bytes -> uint32, unpackers: Unpackers, content: bytes, off: int64, v: Version, limit: int64,
                  h: bytes, stream: bytes, x: bytes)
    requires ReadAt(content, off, HeaderLength(v)) == Ok(h) && HeaderFault(crc, h, limit) == None
    requires StreamAt(crc, content, off + |h|, StoredSize(h)) == Ok(stream)
    requires Unpacked(unpackers, stream, h[|h| - 1] != 0, v, limit) == Ok(x)
    ensures BlockAt(crc, unpackers, content, off, v, limit) == Ok((x, off + |h| + StoredSize(h)))
  {
  }

  /** readBlock is exact, with either header and for every unpacker. */
  lemma BlockIsRead(crc: bytes -> uint32, unpackers: Unpackers, content: bytes, off: int64, v: Version,
                    limit: int64, x: bytes, next: nat)
    requires limit >= 0 && |content| <= MAX_INT64
    ensures BlockAt(crc, unpackers, content, off, v, limit) == Ok((x, next)) <==>
      exists stream, flag :: IsBlock(crc, content, off, v, limit, next, stream, flag)
                             && IsPayload(unpackers, v, limit, stream, flag, x)
  {
    if BlockAt(crc, unpackers, content, off, v, limit) == Ok((x, next)) {
      var stream, flag := ReadIsBlock(crc, unpackers, content, off, v, limit, x, next);
    }
    forall stream, flag | IsBlock(crc, content, off, v, limit, next, stream, flag)
                          && IsPayload(unpackers, v, limit, stream, flag, x)
      ensures BlockAt(crc, unpackers, content, off, v, limit) == Ok((x, next))
    {
      BlockIsReadBack(crc, unpackers, content, off, v, limit, x, next, stream, flag);
    }
  }

  /** The header is judged before anything behind it is read, its size before its checksum. */
  lemma BadHeader(crc: bytes -> uint32, unpackers: Unpackers, content: bytes, off: int64, v: Version, limit: int64)
    requires limit >= 0 && |content| <= MAX_INT64 && 0 <= off
    ensures off + HeaderSize(v) > |content| ==> BlockAt(crc, unpackers, content, off, v, limit) == Err(BadBlock)
    ensures off + HeaderSize(v) <= |content| ==>
      var h := content[off..off + HeaderSize(v)];
      var stored := LE(h[4..|h| - 1]);
      && (stored > limit || stored > MAX_INT64 - |h| ==>
            BlockAt(crc, unpackers, content, off, v, limit) == Err(TooLarge))
      && (stored <= limit && stored <= MAX_INT64 - |h| && crc(h[4..]) != LE(h[..4]) ==>
            BlockAt(crc, unpackers, content, off, v, limit) == Err(ChecksumMismatch))
  {
    SizesAgree(v);
  }

  // ---------------------------------------------------------------- records

  /** Where number k of a row of numbers starts. */
  function Offset(widths: seq<nat>, k: nat): nat
    requires k <= |widths|
  {
    if k == 0 then 0 else Offset(widths, k - 1) + widths[k - 1]
  }

  lemma {:induction false} OffsetBehind(widths: seq<nat>, k: nat)
    requires 0 < k <= |widths|
    ensures Offset(widths, k) == widths[0] + Offset(widths[1..], k - 1)
  {
    if k > 1 {
      OffsetBehind(widths, k - 1);
    }
  }

  lemma {:induction false} NumberAt(widths: seq<nat>, t: bytes, ns: seq<nat>, rest: bytes, k: nat)
    requires Numbers(widths, t) == Some((ns, rest)) && k < |widths|
    ensures var at := Offset(widths, k);
      |ns| == |widths| && at + widths[k] <= |t| && ns[k] == LE(t[at..at + widths[k]])
  {
    var w := widths[0];
    if k > 0 {
      OffsetBehind(widths, k);
      NumberAt(widths[1..], t[w..], ns[1..], rest, k - 1);
      Shifted(t, w, Offset(widths[1..], k - 1), widths[k]);
    } else if |widths| > 1 {
      NumberAt(widths[1..], t[w..], ns[1..], rest, 0);
    }
  }

  lemma {:induction false} RestAt(widths: seq<nat>, t: bytes, ns: seq<nat>, rest: bytes)
    requires Numbers(widths, t) == Some((ns, rest))
    ensures Offset(widths, |widths|) <= |t| && rest == t[Offset(widths, |widths|)..]
  {
    if widths != [] {
      OffsetBehind(widths, |widths|);
      RestAt(widths[1..], t[widths[0]..], ns[1..], rest);
    }
  }

  /** The width of a chunk offset: eight bytes from 6.5.2 on. */
  function OffsetBytes(v: Version): nat {
    if Code(v) >= 0x06_0502 then 8 else 4
  }

  /** The length of a digest: SHA-256 from 6.4.0 on, SHA-1 before. */
  function DigestBytes(v: Version): nat {
    if Code(v) >= 0x06_0400 then 32 else 20
  }

  /** From 6.3.0 up to, but not including, 6.4.3, records have two flag bytes and a sign mode. */
  predicate HasSignMode(v: Version) {
    0x06_0300 <= Code(v) < 0x06_0403
  }

  lemma GatesAre(v: Version)
    ensures OffsetWidth(v) == OffsetBytes(v) && DigestLength(v) == DigestBytes(v)
    ensures SignMode(v) <==> HasSignMode(v)
    ensures NewDigest(v) <==> Code(v) >= 0x06_0400
  {
    VersionOrder(v, 6, 5, 2);
    VersionOrder(v, 6, 4, 0);
    VersionOrder(v, 6, 3, 0);
    VersionOrder(v, 6, 4, 3);
  }

  lemma LayoutOffsets(v: Version)
    ensures var l, w := Layout(v), OffsetBytes(v);
      && Offset(l, 0) == 0 && Offset(l, 1) == 4 && Offset(l, 2) == 8 && Offset(l, 3) == 8 + w
      && Offset(l, 4) == 16 + w && Offset(l, 5) == 24 + w && Offset(l, 6) == 32 + w
  {
    GatesAre(v);
    var l := Layout(v);
    assert Offset(l, 1) == 4;
    assert Offset(l, 2) == 8;
    assert Offset(l, 3) == 8 + OffsetBytes(v);
    assert Offset(l, 4) == 16 + OffsetBytes(v);
    assert Offset(l, 5) == 24 + OffsetBytes(v);
  }

  lemma TailOffsets(v: Version)
    ensures var l := TailLayout(v);
      && Offset(l, 2) == 16 && Offset(l, |l|) == if HasSignMode(v) then 19 else 17
  {
    GatesAre(v);
    var l := TailLayout(v);
    assert Offset(l, 1) == 8;
    assert Offset(l, 2) == 16;
    assert Offset(l, 3) == if HasSignMode(v) then 18 else 17;
  }

  // ---------------------------------------------------------------- one record

  /** Where the tail of a record starts, if k bytes of digest are there. */
  function TailAt(v: Version, k: nat): nat {
    32 + OffsetBytes(v) + k
  }

  /** Bit k of a byte, for the bits that are used. */
  predicate HasBit(b: byte, k: nat)
    requires k == 2 || k == 3 || k == 4
  {
    (b as int / (if k == 2 then 4 else if k == 3 then 8 else 16)) % 2 == 1
  }

  /** The entry that the bytes t hold, with k bytes of digest: little-endian numbers for the first
      and last slice, the offset of the chunk, offset and size of the file and the size of the
      chunk, then the digest, and 16 bytes further the flags: bit 4 for the compression of the
      header, bit 3 for the encryption of the version, bit 2 for the instruction filter. */
  function EntryIn(v: Version, compression: Compression, t: bytes, k: nat): DataEntry
    requires TailAt(v, k) + 17 <= |t|
  {
    var w := OffsetBytes(v);
    var flags := t[TailAt(v, k) + 16];
    LEBound(t[0..4]);
    LEBound(t[4..8]);
    LEBound(t[8..8 + w]);
    LEBound(t[8 + w..16 + w]);
    LEBound(t[16 + w..24 + w]);
    LEBound(t[24 + w..32 + w]);
    SmallPowers();
    EightBytes();
    var offset := LE(t[8..8 + w]);
    DataEntry(
      Chunk(LE(t[0..4]), LE(t[4..8]), offset, offset, LE(t[24 + w..32 + w]),
            if HasBit(flags, 4) then compression else Stored,
            if !HasBit(flags, 3) then Plaintext else if Code(v) >= 0x06_0400 then XChaCha20 else ARC4SHA1),
      StoredFile(LE(t[8 + w..16 + w]), LE(t[16 + w..24 + w]),
                 Checksum(if Code(v) >= 0x06_0400 then ChecksumSHA256 else ChecksumSHA1, t[32 + w..32 + w + k]),
                 if HasBit(flags, 2) then Instruction5309 else NoFilter),
      LE(t[16 + w..24 + w]))
  }

  lemma HighByte(x: nat, h: nat)
    ensures (x + 0x100 * h) / 4 == x / 4 + 2 * (32 * h)
    ensures (x + 0x100 * h) / 8 == x / 8 + 2 * (16 * h)
    ensures (x + 0x100 * h) / 16 == x / 16 + 2 * (8 * h)
  {
  }

  lemma Parity(q: nat, j: nat)
    ensures (q + 2 * j) % 2 == q % 2
  {
  }

  /** The bits of two flag bytes are those of the first. */
  lemma LowBits(f: bytes, k: nat)
    requires 1 <= |f| <= 2 && (k == 2 || k == 3 || k == 4)
    ensures Bit(LE(f), k) <==> HasBit(f[0], k)
  {
    FilterBytes.LEDigits(f);
    var x, h := f[0] as int, if |f| > 1 then f[1] as int else 0;
    assert LE(f) == x + 0x100 * h;
    HighByte(x, h);
    if k == 2 {
      Parity(x / 4, 32 * h);
    } else if k == 3 {
      Parity(x / 8, 16 * h);
    } else {
      Parity(x / 16, 8 * h);
    }
  }

  /** The digest of a record: whole, or nothing if there are not enough bytes for it. */
  function DigestIn(v: Version, t: bytes): nat {
    if |t| >= 32 + OffsetBytes(v) + DigestBytes(v) then DigestBytes(v) else 0
  }

  lemma FieldAt(v: Version, t: bytes, f: seq<nat>, u: bytes, k: nat, at: nat, n: nat)
    requires Numbers(Layout(v), t) == Some((f, u)) && k < 6
    requires at == Offset(Layout(v), k) && n == Layout(v)[k]
    ensures |f| == 6 && at + n <= |t| && f[k] == LE(t[at..at + n])
  {
    NumberAt(Layout(v), t, f, u, k);
  }

  /** The numbers in front of the digest. */
  lemma FieldsIn(v: Version, t: bytes, f: seq<nat>, u: bytes)
    requires Numbers(Layout(v), t) == Some((f, u))
    ensures var w := OffsetBytes(v);
      32 + w <= |t| && u == t[32 + w..] && |f| == 6
    ensures var w := OffsetBytes(v);
      && f[0] == LE(t[0..4]) && f[1] == LE(t[4..8]) && f[2] == LE(t[8..8 + w]) && f[3] == LE(t[8 + w..16 + w])
      && f[4] == LE(t[16 + w..24 + w]) && f[5] == LE(t[24 + w..32 + w])
  {
    var w := OffsetBytes(v);
    GatesAre(v);
    LayoutOffsets(v);
    RestAt(Layout(v), t, f, u);
    FieldAt(v, t, f, u, 0, 0, 4);
    FieldAt(v, t, f, u, 1, 4, 4);
    FieldAt(v, t, f, u, 2, 8, w);
    FieldAt(v, t, f, u, 3, 8 + w, 8);
    FieldAt(v, t, f, u, 4, 16 + w, 8);
    FieldAt(v, t, f, u, 5, 24 + w, 8);
  }

  /** The flags and what stands behind them. */
  lemma TailIn(v: Version, t: bytes, g: seq<nat>, rest: bytes)
    requires Numbers(TailLayout(v), t) == Some((g, rest))
    ensures var end := if HasSignMode(v) then 19 else 17;
      end <= |t| && rest == t[end..] && |g| > 2 && forall k | 2 <= k <= 4 :: Bit(g[2], k) <==> HasBit(t[16], k)
  {
    GatesAre(v);
    TailOffsets(v);
    RestAt(TailLayout(v), t, g, rest);
    NumberAt(TailLayout(v), t, g, rest, 2);
    var flags := t[16..16 + TailLayout(v)[2]];
    LowBits(flags, 2);
    LowBits(flags, 3);
    LowBits(flags, 4);
  }

  lemma EntryFrom(v: Version, compression: Compression, t: bytes, k: nat, f: seq<nat>, flags: nat)
    requires TailAt(v, k) + 17 <= |t| && Fit(Layout(v), f)
    requires var w := OffsetBytes(v);
      && |f| == 6 && f[0] == LE(t[0..4]) && f[1] == LE(t[4..8]) && f[2] == LE(t[8..8 + w])
      && f[3] == LE(t[8 + w..16 + w]) && f[4] == LE(t[16 + w..24 + w]) && f[5] == LE(t[24 + w..32 + w])
    requires forall b | 2 <= b <= 4 :: Bit(flags, b) <==> HasBit(t[TailAt(v, k) + 16], b)
    ensures EntryOf(v, compression, f, t[32 + OffsetBytes(v)..TailAt(v, k)], flags) == EntryIn(v, compression, t, k)
  {
    GatesAre(v);
  }

  /** The steps of parseDataEntry. */
  lemma RecordSteps(v: Version, compression: Compression, t: bytes, d: DataEntry, rest: bytes)
    returns (f: seq<nat>, u: bytes, g: seq<nat>)
    requires ParsedEntry(v, compression, t) == Some((d, rest))
    ensures Numbers(Layout(v), t) == Some((f, u)) && Fit(Layout(v), f)
    ensures Numbers(TailLayout(v), u[|DigestAt(v, u)|..]) == Some((g, rest))
    ensures |g| > 2 && d == EntryOf(v, compression, f, DigestAt(v, u), g[2])
  {
    f, u := Numbers(Layout(v), t).value.0, Numbers(Layout(v), t).value.1;
    WriteRead(Layout(v), t, f, u);
    var tail := u[|DigestAt(v, u)|..];
    g := Numbers(TailLayout(v), tail).value.0;
    TailIn(v, tail, g, rest);
  }

  /** parseDataEntry reads exactly that entry, and goes on behind the flags and the sign mode. */
  lemma RecordBytes(v: Version, compression: Compression, t: bytes, d: DataEntry, rest: bytes)
    requires ParsedEntry(v, compression, t) == Some((d, rest))
    ensures var k := DigestIn(v, t);
      var end := TailAt(v, k) + if HasSignMode(v) then 19 else 17;
      end <= |t| && rest == t[end..] && d == EntryIn(v, compression, t, k)
  {
    var k, lo := DigestIn(v, t), 32 + OffsetBytes(v);
    var f, u, g := RecordSteps(v, compression, t, d, rest);
    FieldsIn(v, t, f, u);
    DigestStands(v, t, u, lo, k);
    TailIn(v, t[lo + k..], g, rest);
    FilterBytes.Behind(t, lo + k, if HasSignMode(v) then 19 else 17);
    EntryFrom(v, compression, t, k, f, g[2]);
  }

  lemma DigestStands(v: Version, t: bytes, u: bytes, lo: nat, k: nat)
    requires lo == 32 + OffsetBytes(v) <= |t| && u == t[lo..] && k == DigestIn(v, t)
    ensures lo + k <= |t| && DigestAt(v, u) == t[lo..lo + k] && u[|DigestAt(v, u)|..] == t[lo + k..]
  {
    GatesAre(v);
    Shifted(t, lo, 0, k);
    FilterBytes.Behind(t, lo, k);
  }

  /** The length of a record with its digest. */
  function RecordSize(v: Version): nat {
    TailAt(v, DigestBytes(v)) + if HasSignMode(v) then 19 else 17
  }

  lemma RecordSizeIs(v: Version)
    ensures RecordSize(v) == RecordLength(v) && RecordSize(v) > DigestBytes(v)
  {
    GatesAre(v);
  }

  /** In front of another one, a record is whole. */
  lemma FirstIsWhole(v: Version, compression: Compression, n: nat, t: bytes)
    requires n >= 2 && Accepted(v, compression, n, t).Some?
    ensures |t| >= RecordSize(v) && DigestIn(v, t) == DigestBytes(v)
  {
    AcceptedLengths(v, compression, n, t);
    RecordSizeIs(v);
    GatesAre(v);
    OneLess(n, RecordSize(v));
  }

  /** The entry at the front of t, with its digest or without. */
  function EntryHere(v: Version, compression: Compression, t: bytes): Option<DataEntry> {
    if TailAt(v, DigestIn(v, t)) + 17 > |t| then None else Some(EntryIn(v, compression, t, DigestIn(v, t)))
  }

  lemma FirstStands(v: Version, compression: Compression, n: nat, t: bytes, ds: seq<DataEntry>)
    requires Accepted(v, compression, n, t) == Some(ds) && n > 0
    ensures ds != [] && EntryHere(v, compression, t) == Some(ds[0])
    ensures n > 1 ==>
      && DigestIn(v, t) == DigestBytes(v) && RecordSize(v) <= |t|
      && Accepted(v, compression, n - 1, t[RecordSize(v)..]) == Some(ds[1..])
    ensures n == 1 ==> |ds| == 1
  {
    var (d, rest) := ParsedEntry(v, compression, t).value;
    AcceptedFirst(v, compression, n, t, ds);
    RecordBytes(v, compression, t, d, rest);
    if n > 1 {
      FirstIsWhole(v, compression, n, t);
    } else {
      assert Accepted(v, compression, 0, rest) == Some(ds[1..]);
    }
  }

  /** Where entry i stands: behind i whole records. */
  function Position(v: Version, i: nat): nat {
    if i == 0 then 0 else RecordSize(v) + Position(v, i - 1)
  }

  lemma {:induction false} PositionIs(v: Version, i: nat, size: nat)
    requires size == RecordSize(v)
    ensures Position(v, i) == i * size
  {
    if i > 0 {
      PositionIs(v, i - 1, size);
      OneMore(i - 1, size, Position(v, i - 1));
    }
  }

  lemma OneMore(n: nat, k: nat, p: nat)
    requires p == n * k
    ensures k + p == (n + 1) * k
  {
  }

  lemma {:induction false} EntryCount(v: Version, compression: Compression, n: nat, t: bytes, ds: seq<DataEntry>)
    requires Accepted(v, compression, n, t) == Some(ds)
    ensures |ds| == n
  {
    if n > 0 {
      AcceptedFirst(v, compression, n, t, ds);
      EntryCount(v, compression, n - 1, ParsedEntry(v, compression, t).value.1, ds[1..]);
    }
  }

  /** What is left of an accepted stream behind i whole records. */
  lemma {:induction false} Remaining(v: Version, compression: Compression, n: nat, t: bytes, ds: seq<DataEntry>, i: nat)
    requires Accepted(v, compression, n, t) == Some(ds) && i < n == |ds|
    ensures Position(v, i) <= |t|
    ensures Accepted(v, compression, n - i, t[Position(v, i)..]) == Some(ds[i..])
  {
    if i == 0 {
      assert t[0..] == t && ds[0..] == ds;
    } else {
      var at := Position(v, i - 1);
      Remaining(v, compression, n, t, ds, i - 1);
      OneLessRemains(v, compression, n - (i - 1), t, at, at + RecordSize(v), ds[i - 1..]);
      assert ds[i - 1..][1..] == ds[i..];
    }
  }

  lemma OneLessRemains(v: Version, compression: Compression, m: nat, t: bytes, at: nat, next: nat, ds: seq<DataEntry>)
    requires m > 1 && at <= |t| && next == at + RecordSize(v)
    requires Accepted(v, compression, m, t[at..]) == Some(ds)
    ensures next <= |t| && ds != [] && Accepted(v, compression, m - 1, t[next..]) == Some(ds[1..])
  {
    FirstStands(v, compression, m, t[at..], ds);
    FilterBytes.Behind(t, at, RecordSize(v));
  }

  /** Entry i of an accepted stream is the one that stands behind i records; only the last can
      lack its digest. */
  lemma EntriesAreAt(v: Version, compression: Compression, n: nat, t: bytes, ds: seq<DataEntry>, i: nat)
    requires Accepted(v, compression, n, t) == Some(ds) && i < n
    ensures |ds| == n && Position(v, i) <= |t|
    ensures EntryHere(v, compression, t[Position(v, i)..]) == Some(ds[i])
    ensures i < n - 1 ==> DigestIn(v, t[Position(v, i)..]) == DigestBytes(v)
  {
    EntryCount(v, compression, n, t, ds);
    Remaining(v, compression, n, t, ds, i);
    FirstStands(v, compression, n - i, t[Position(v, i)..], ds[i..]);
  }

  lemma AcceptedFirst(v: Version, compression: Compression, n: nat, t: bytes, ds: seq<DataEntry>)
    requires Accepted(v, compression, n, t) == Some(ds) && n > 0
    ensures ParsedEntry(v, compression, t).Some? && ds != []
    ensures ds[0] == ParsedEntry(v, compression, t).value.0
    ensures Accepted(v, compression, n - 1, ParsedEntry(v, compression, t).value.1) == Some(ds[1..])
  {
    var (d, rest) := ParsedEntry(v, compression, t).value;
    AcceptedOneLess(v, compression, n, t, d, rest);
  }
}
