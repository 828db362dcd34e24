/** internal/stream/slice.go: one forward-only reader over embedded data or over a sequence
    of external slices.

    `Stream` says what a source still has to give: its bytes and the error that ends them.
    Every `Read`, whatever its buffer size, takes bytes from the front of that stream and
    leaves the rest, so any pattern of reads sees the same data.  The lemmas say what the
    stream is: the concatenation of the slice payloads. */
module Slices {
  import opened Bytes
  import opened Format

  /** What the source or a reader below it reports instead of a full buffer. */
  datatype ReadError = Eof | NoProgress | UnexpectedEof | ReadFailed | Corrupt | MissingSlice

  /** What an io.ReaderAt answers when fewer bytes are left than asked for. */
  datatype ShortRead = ShortEof | ShortSilent | ShortFailed

  /** An io.ReaderAt over immutable bytes.  A Go int64 offset reaches every byte. */
  datatype RawDevice = Device(content: bytes, short: ShortRead)

  type Device = d: RawDevice | |d.content| <= MAX_INT64 witness Device([], ShortEof)

  const SLICE_MAGIC_16: bytes := [0x69, 0x64, 0x73, 0x6b, 0x61, 0x31, 0x36, 0x1a]
  const SLICE_MAGIC_32: bytes := [0x69, 0x64, 0x73, 0x6b, 0x61, 0x33, 0x32, 0x1a]

  type Provider = uint32 -> Option<Device>

  /** The bytes a device has from an offset on. */
  function From(d: Device, off: nat): bytes {
    if off <= |d.content| then d.content[off..] else []
  }

  /** ReadAt into p[at..at + want]: copies what there is, and an error for a short read. */
  method ReadAt(d: Device, p: array<byte>, at: nat, want: nat, off: int64) returns (n: nat, err: Option<ShortRead>)
    requires off >= 0 && at + want <= p.Length
    modifies p
    ensures n == Min(want, |From(d, off)|)
    ensures p[..at] == old(p[..at]) && p[at..at + n] == From(d, off)[..n]
    ensures err == if n < want then Some(d.short) else None
  {
    var src := From(d, off);
    n := Min(want, |src|);
    for i := 0 to n
      invariant p[..at] == old(p[..at])
      invariant p[at..at + i] == src[..i]
    {
      p[at + i] := src[i];
      assert p[at..at + i + 1] == p[at..at + i] + [src[i]];
      assert src[..i + 1] == src[..i] + [src[i]];
    }
    err := if n < want then Some(d.short) else None;
  }

  // ---------------------------------------------------------------- what a source holds

  datatype Stream = Stream(data: bytes, end: ReadError)

  function Prepend(front: bytes, s: Stream): Stream {
    Stream(front + s.data, s.end)
  }

  /** What `open` finds in a slice: the payload's first offset and, for a slice with a
      header, its declared size.  None is the source's "max uint64", a raw payload. */
  datatype Opened = Opened(device: Device, base: uint64, size: Option<uint32>)

  function IsMagic(head: bytes): bool {
    head == SLICE_MAGIC_16 || head == SLICE_MAGIC_32
  }

  function OpenedSlice(slot: Option<Device>): Result<Opened, ReadError> {
    match slot
    case None => Err(MissingSlice)
    case Some(d) =>
      var n := Min(12, |d.content|);
      if n >= 8 && IsMagic(d.content[..8]) then
        if n < 12 || LE(d.content[8..12]) < 12 then Err(Corrupt)
        else
          HeaderFits(d.content[8..12]);
          Ok(Opened(d, 12, Some(LE(d.content[8..12]) - 12)))
      else if n == 0 && d.short == ShortFailed then Err(Corrupt)
      else Ok(Opened(d, 0, None))
  }

  lemma HeaderFits(w: bytes)
    requires |w| == 4
    ensures LE(w) < 0x1_0000_0000
  {
    LEBound(w);
    SmallPowers();
  }

  /** The error of a short read that does not end the slice regularly. */
  function Broken(short: ShortRead): ReadError {
    match short
    case ShortEof => UnexpectedEof
    case ShortSilent => NoProgress
    case ShortFailed => ReadFailed
  }

  /** The rest of an open slice from pos on, then the slices after it up to `last`. */
  function OpenStream(provider: Provider, o: Opened, slice: uint32, last: uint32, pos: uint64): Stream
    requires slice <= last
    decreases last - slice, 1
  {
    if o.size.Some? && pos >= o.size.value then AfterSlice(provider, slice, last)
    else if o.base + pos > MAX_INT64 then Stream([], Corrupt)
    else
      var left := if o.size.Some? then Some(o.size.value - pos) else None;
      RestOfSlice(From(o.device, o.base + pos), left, o.device.short, AfterSlice(provider, slice, last))
  }

  /** What an open slice gives of the bytes that are there, and what comes behind it. */
  function RestOfSlice(avail: bytes, left: Option<nat>, short: ShortRead, after: Stream): Stream {
    if left.Some? && |avail| >= left.value then Prepend(avail[..left.value], after)
    else if left.None? && short == ShortEof then Prepend(avail, after)
    else Stream(avail, Broken(short))
  }

  function AfterSlice(provider: Provider, slice: uint32, last: uint32): Stream
    requires slice <= last
    decreases last - slice, 0
  {
    if slice == last then Stream([], Eof) else SliceStream(provider, slice + 1, last, 0)
  }

  /** The slices from `slice` to `last`, starting pos bytes into the first. */
  function SliceStream(provider: Provider, slice: uint32, last: uint32, pos: uint64): Stream
    requires slice <= last
    decreases last - slice, 2
  {
    match OpenedSlice(provider(slice))
    case Err(e) => Stream([], e)
    case Ok(o) => OpenStream(provider, o, slice, last, pos)
  }

  /** Embedded data from an absolute offset on; a silent short read counts as the end. */
  function EmbeddedStream(d: Device, off: nat): Stream {
    if off > MAX_INT64 then Stream([], Corrupt)
    else Stream(From(d, off), if d.short == ShortFailed then ReadFailed else Eof)
  }

  lemma PrependTwice(a: bytes, b: bytes, s: Stream)
    ensures Prepend(a, Prepend(b, s)) == Prepend(a + b, s)
  {
    assert a + (b + s.data) == (a + b) + s.data;
  }

  lemma PrependNothing(s: Stream)
    ensures Prepend([], s) == s
  {
    NothingAdded(s.data);
  }

  /** Taking n bytes that are there leaves the rest. */
  lemma TakeRest(avail: bytes, left: Option<nat>, short: ShortRead, after: Stream, n: nat)
    requires n <= |avail| && (left.Some? ==> n <= left.value)
    ensures var less := if left.Some? then Some(left.value - n) else None;
      RestOfSlice(avail, left, short, after) == Prepend(avail[..n], RestOfSlice(avail[n..], less, short, after))
  {
    Halves(avail, n);
    if left.Some? && |avail| >= left.value {
      TakeSized(avail, n, left.value, after);
    } else if left.None? && short == ShortEof {
      PrependTwice(avail[..n], avail[n..], after);
    }
  }

  lemma TakeSized(avail: bytes, n: nat, k: nat, after: Stream)
    requires n <= k <= |avail|
    ensures Prepend(avail[..k], after) == Prepend(avail[..n], Prepend(avail[n..][..k - n], after))
  {
    var front, middle := avail[..n], avail[n..][..k - n];
    assert avail[..k] == front + middle;
    PrependTwice(front, middle, after);
  }

  lemma FromNext(d: Device, off: nat, n: nat)
    requires n <= |From(d, off)|
    ensures From(d, off + n) == From(d, off)[n..]
  {
    if off <= |d.content| {
      assert d.content[off..][n..] == d.content[off + n..];
    }
  }

  /** What is left of a slice at pos; None if it has no size. */
  function LeftOf(size: Option<uint32>, pos: uint64): Option<nat>
    requires size.Some? ==> pos <= size.value
  {
    if size.Some? then Some(size.value - pos) else None
  }

  /** An open slice up to its end, and at it. */
  lemma OpenIsRest(provider: Provider, o: Opened, slice: uint32, last: uint32, pos: uint64)
    requires slice <= last && o.base + pos <= MAX_INT64 && (o.size.Some? ==> pos <= o.size.value)
    ensures OpenStream(provider, o, slice, last, pos)
         == RestOfSlice(From(o.device, o.base + pos), LeftOf(o.size, pos), o.device.short,
                        AfterSlice(provider, slice, last))
  {
    PrependNothing(AfterSlice(provider, slice, last));
  }

  /** Taking n bytes that are there moves the position and nothing else. */
  lemma TakeStep(provider: Provider, o: Opened, slice: uint32, last: uint32, pos: uint64, n: nat)
    requires slice <= last && o.base + pos + n <= MAX_INT64
    requires n <= |From(o.device, o.base + pos)|
    requires o.size.Some? ==> n <= o.size.value - pos
    ensures OpenStream(provider, o, slice, last, pos)
         == Prepend(From(o.device, o.base + pos)[..n], OpenStream(provider, o, slice, last, pos + n))
  {
    var avail, after := From(o.device, o.base + pos), AfterSlice(provider, slice, last);
    OpenIsRest(provider, o, slice, last, pos);
    OpenIsRest(provider, o, slice, last, pos + n);
    FromNext(o.device, o.base + pos, n);
    TakeRest(avail, LeftOf(o.size, pos), o.device.short, after, n);
  }

  /** An open slice with nothing more to read. */
  lemma Exhausted(provider: Provider, o: Opened, slice: uint32, last: uint32, pos: uint64)
    requires slice <= last && o.base + pos <= MAX_INT64 && From(o.device, o.base + pos) == []
    requires o.size.Some? ==> pos < o.size.value
    ensures OpenStream(provider, o, slice, last, pos)
         == if o.size.None? && o.device.short == ShortEof then AfterSlice(provider, slice, last)
            else Stream([], Broken(o.device.short))
  {
    assert Prepend([], AfterSlice(provider, slice, last)) == AfterSlice(provider, slice, last);
  }

  /** One read with room for `room` bytes: it gives the front of the stream, as much as there
      is room for, and leaves the rest; only a read that came up short carries the error
      that ends the stream, and the stream keeps it. */
  ghost predicate Delivers(before: Stream, room: nat, got: bytes, after: Stream, err: Option<ReadError>) {
    && |got| == Min(room, |before.data|)
    && before == Prepend(got, after)
    && err == if |got| == room then None else Some(before.end)
  }

  /** A read that fills its room, or comes to the end of the stream. */
  lemma Delivered(before: Stream, room: nat, got: bytes, after: Stream, err: Option<ReadError>)
    requires before == Prepend(got, after) && |got| <= room
    requires if err.Some? then |got| < room && after == Stream([], err.value) else |got| == room
    ensures Delivers(before, room, got, after, err)
  {
  }

  // ---------------------------------------------------------------- the reader

  /** checkedOffset: base + pos, unless it leaves uint64 or int64. */
  function CheckedOffset(base: uint64, pos: uint64): (r: Option<int64>)
    ensures r == if base + pos <= MAX_INT64 then Some(base + pos) else None
  {
    if MAX_UINT64 - base < pos then None
    else if base + pos > MAX_INT64 then None
    else Some(base + pos)
  }

  class SliceSource {
    const embedded: bool
    const r: Device
    const provider: Provider
    const dataStart: uint64
    const last: uint32

    var slice: uint32
    var pos: uint64
    var current: Device
    var base: uint64
    var end: uint64
    var isOpen: bool

    ghost predicate Valid()
      reads this
    {
      && slice <= last
      && (!embedded && isOpen ==>
           && OpenedSlice(provider(slice)) == Ok(Opened(current, base, DeclaredSize()))
           && (base == 0 || base == 12)
           && (end < 0x1_0000_0000 || end == MAX_UINT64))
    }

    ghost function DeclaredSize(): Option<uint32>
      reads this
    {
      if end < 0x1_0000_0000 then Some(end) else None
    }

    /** Everything the source has still to give. */
    ghost function Rest(): Stream
      requires Valid()
      reads this
    {
      if embedded then EmbeddedStream(r, dataStart + pos)
      else if isOpen then OpenStream(provider, Opened(current, base, DeclaredSize()), slice, last, pos)
      else SliceStream(provider, slice, last, pos)
    }

    constructor Embedded(r: Device, dataStart: uint64, slice: uint32, last: uint32, provider: Provider)
      requires slice <= last
      ensures Valid() && Rest() == EmbeddedStream(r, dataStart)
    {
      embedded, this.r, this.dataStart, this.slice, this.last := true, r, dataStart, slice, last;
      this.provider := provider;
      pos, current, base, end, isOpen := 0, r, 0, MAX_UINT64, false;
    }

    constructor External(r: Device, provider: Provider, slice: uint32, last: uint32, offset: uint64)
      requires slice <= last
      ensures Valid() && Rest() == SliceStream(provider, slice, last, offset)
    {
      embedded, this.r, this.provider, this.slice, this.last := false, r, provider, slice, last;
      dataStart, pos, current, base, end, isOpen := 0, offset, r, 0, MAX_UINT64, false;
    }

    /** open: a slice counts as open only when its header, if it has one, is in order. */
    method Open() returns (err: Option<ReadError>)
      requires Valid() && !embedded && !isOpen
      modifies this
      ensures Valid() && slice == old(slice) && pos == old(pos) && Rest() == old(Rest())
      ensures isOpen == err.None?
      ensures err.Some? ==> Rest() == Stream([], err.value)
    {
      var slot := provider(slice);
      if slot.None? {
        return Some(MissingSlice);
      }
      var d := slot.value;
      current, base, end := d, 0, MAX_UINT64;
      var header := new byte[12];
      var n, readErr := ReadAt(d, header, 0, 12, 0);
      assert header[..n] == d.content[..n];
      if n >= 8 {
        assert header[..8] == d.content[..8];
      }
      if n >= 8 && (header[..8] == SLICE_MAGIC_16 || header[..8] == SLICE_MAGIC_32) {
        if n < 12 {
          return Some(Corrupt);
        }
        assert header[8..12] == d.content[8..12];
        HeaderFits(header[8..12]);
        var total := LE(header[8..12]);
        if total < 12 {
          return Some(Corrupt);
        }
        base, end := 12, total - 12;
      } else if readErr.Some? && n == 0 && readErr.value == ShortFailed {
        return Some(Corrupt);
      }
      isOpen := true;
      err := None;
    }

    /** Read, in both modes. */
    method Read(p: array<byte>) returns (n: nat, err: Option<ReadError>)
      requires Valid()
      modifies this, p
      ensures Valid()
      ensures n <= p.Length && Delivers(old(Rest()), p.Length, p[..n], Rest(), err)
    {
      if p.Length == 0 {
        return 0, None;
      }
      if embedded {
        n, err := ReadEmbedded(p);
      } else {
        n, err := ReadSlices(p);
      }
    }

    method ReadEmbedded(p: array<byte>) returns (n: nat, err: Option<ReadError>)
      requires Valid() && embedded && p.Length > 0
      modifies this, p
      ensures Valid()
      ensures n <= p.Length && Delivers(old(Rest()), p.Length, p[..n], Rest(), err)
    {
      var offset := CheckedOffset(dataStart, pos);
      if offset.None? {
        return 0, Some(Corrupt);
      }
      ghost var was := Rest();
      var m, short := ReadAt(r, p, 0, p.Length, offset.value);
      assert p[..m] == p[0..m];
      pos := pos + m;
      n := m;
      assert was.data == p[..n] + Rest().data;
      err := if n == p.Length then None else Some(if short.value == ShortFailed then ReadFailed else Eof);
    }

    method ReadSlices(p: array<byte>) returns (total: nat, err: Option<ReadError>)
      requires Valid() && !embedded && p.Length > 0
      modifies this, p
      ensures Valid()
      ensures total <= p.Length && Delivers(old(Rest()), p.Length, p[..total], Rest(), err)
    {
      total, err := 0, None;
      ghost var whole, rest := Rest(), Rest();
      PrependNothing(whole);
      while total < p.Length
        invariant Valid() && 0 <= total <= p.Length && err.None? && Rest() == rest
        invariant whole == Prepend(p[..total], rest)
        decreases last - slice, p.Length - total
      {
        ghost var front := p[..total];
        var n;
        n, err := ReadOn(p, total);
        ghost var more := p[total..total + n];
        assert p[..total + n] == front + more;
        rest := Rest();
        PrependTwice(front, more, rest);
        total := total + n;
        if err.Some? {
          break;
        }
      }
      Delivered(whole, p.Length, p[..total], rest, err);
    }

    /** One turn of the loop: open the slice if need be, then read from it or leave it. */
    method ReadOn(p: array<byte>, total: nat) returns (n: nat, err: Option<ReadError>)
      requires Valid() && !embedded && total < p.Length
      modifies this, p
      ensures Valid() && total + n <= p.Length && p[..total] == old(p[..total])
      ensures old(Rest()) == Prepend(p[total..total + n], Rest())
      ensures err.Some? ==> total + n < p.Length && Rest() == Stream([], err.value)
      ensures err.None? ==> slice == old(slice) + 1 || (slice == old(slice) && n > 0)
    {
      n := 0;
      ghost var whole := Rest();
      if !isOpen {
        err := Open();
        if err.Some? {
          PrependNothing(Rest());
          assert p[total..total + n] == [];
          return;
        }
        assert Rest() == whole;
      }
      n, err := ReadOpen(p, total);
    }

    /** One turn of the loop on an open slice: read from it, or go on to the next one. */
    method ReadOpen(p: array<byte>, total: nat) returns (n: nat, err: Option<ReadError>)
      requires Valid() && !embedded && isOpen && total < p.Length
      modifies this, p
      ensures Valid() && total + n <= p.Length && p[..total] == old(p[..total])
      ensures old(Rest()) == Prepend(p[total..total + n], Rest())
      ensures err.Some? ==> total + n < p.Length && Rest() == Stream([], err.value)
      ensures err.None? ==> slice == old(slice) + 1 || (slice == old(slice) && isOpen && n > 0)
    {
      if end != MAX_UINT64 && pos >= end {
        err := NextSlice();
        n := 0;
        assert Prepend([], Rest()) == Rest();
        return;
      }
      var want := p.Length - total;
      if end != MAX_UINT64 {
        want := Min(end - pos, want);
      }
      var offset := CheckedOffset(base, pos);
      if offset.None? {
        return 0, Some(Corrupt);
      }
      var short;
      n, short := ReadHere(p, total, want, offset.value);
      err := None;
      if n < want {
        err := AfterShort(short.value);
      }
    }

    /** One ReadAt on the open slice. */
    method ReadHere(p: array<byte>, total: nat, want: nat, offset: int64)
      returns (n: nat, short: Option<ShortRead>)
      requires Valid() && !embedded && isOpen && base + pos == offset
      requires 0 < want && total + want <= p.Length
      requires DeclaredSize().Some? ==> want <= end - pos
      modifies this`pos, p
      ensures Valid() && n <= want && pos == old(pos) + n
      ensures p[..total] == old(p[..total])
      ensures short == if n < want then Some(current.short) else None
      ensures n < want ==> From(current, base + pos) == [] && (DeclaredSize().Some? ==> pos < end)
      ensures base + pos <= MAX_INT64
      ensures old(Rest()) == Prepend(p[total..total + n], Rest())
    {
      ghost var o, from, whole := Opened(current, base, DeclaredSize()), pos, Rest();
      n, short := ReadAt(current, p, total, want, offset);
      assert whole == OpenStream(provider, o, slice, last, from);
      FromNext(current, base + from, n);
      TakeStep(provider, o, slice, last, from, n);
      pos := pos + n;
      assert Rest() == OpenStream(provider, o, slice, last, from + n);
    }

    /** What a read that came up short means for the source. */
    method AfterShort(short: ShortRead) returns (err: Option<ReadError>)
      requires Valid() && !embedded && isOpen && short == current.short
      requires base + pos <= MAX_INT64 && From(current, base + pos) == []
      requires DeclaredSize().Some? ==> pos < end
      modifies this
      ensures Valid() && Rest() == old(Rest())
      ensures err.Some? ==> Rest() == Stream([], err.value)
      ensures err.None? ==> slice == old(slice) + 1
    {
      Exhausted(provider, Opened(current, base, DeclaredSize()), slice, last, pos);
      if short == ShortSilent {
        return Some(NoProgress);
      }
      if short == ShortFailed {
        return Some(ReadFailed);
      }
      if end != MAX_UINT64 && pos < end {
        return Some(UnexpectedEof);
      }
      err := NextSlice();
    }

    /** The end of a slice: the end of the data, or a step to the next slice. */
    method NextSlice() returns (err: Option<ReadError>)
      requires Valid() && !embedded && Rest() == AfterSlice(provider, slice, last)
      modifies this
      ensures Valid() && Rest() == old(Rest())
      ensures err.Some? ==> Rest() == Stream([], err.value)
      ensures err.None? ==> slice == old(slice) + 1
    {
      if slice == last {
        return Some(Eof);
      }
      slice, pos, isOpen := slice + 1, 0, false;
      err := None;
    }
  }

  // ---------------------------------------------------------------- choosing a source

  /** Where an archive keeps its data: DataOffset and whether BaseFilename is set. */
  datatype Layout = Layout(dataOffset: uint64, hasBaseFilename: bool)

  /** What a chunk's source holds, or why there is none. */
  function ChunkStream(r: Device, layout: Layout, chunk: Chunk, slices: Option<Provider>): Result<Stream, ReadError> {
    if chunk.firstSlice > chunk.lastSlice then Err(Corrupt)
    else if slices.Some? && layout.dataOffset == 0 then
      Ok(SliceStream(slices.value, chunk.firstSlice, chunk.lastSlice, chunk.offset))
    else if layout.dataOffset == 0 && layout.hasBaseFilename then Err(MissingSlice)
    else if layout.dataOffset + chunk.offset > MAX_UINT64 then Err(Corrupt)
    else Ok(EmbeddedStream(r, layout.dataOffset + chunk.offset))
  }

  /** newSliceSourceWithProvider and, behind it, newSliceSource. */
  method NewSliceSource(r: Device, layout: Layout, chunk: Chunk, slices: Option<Provider>)
    returns (source: Result<SliceSource, ReadError>)
    ensures source.Ok? == ChunkStream(r, layout, chunk, slices).Ok?
    ensures source.Ok? ==> fresh(source.value) && source.value.Valid()
    ensures source.Ok? ==> Ok(source.value.Rest()) == ChunkStream(r, layout, chunk, slices)
    ensures source.Err? ==> Err(source.error) == ChunkStream(r, layout, chunk, slices)
  {
    if chunk.firstSlice > chunk.lastSlice {
      return Err(Corrupt);
    }
    if slices.Some? && layout.dataOffset == 0 {
      var external := new SliceSource.External(r, slices.value, chunk.firstSlice, chunk.lastSlice, chunk.offset);
      return Ok(external);
    }
    if layout.dataOffset == 0 && layout.hasBaseFilename {
      return Err(MissingSlice);
    }
    if MAX_UINT64 - layout.dataOffset < chunk.offset {
      return Err(Corrupt);
    }
    var embedded := new SliceSource.Embedded(
      r, layout.dataOffset + chunk.offset, chunk.firstSlice, chunk.lastSlice, _ => None);
    return Ok(embedded);
  }

  // ---------------------------------------------------------------- any pattern of reads

  datatype ReadCall = ReadCall(room: nat, got: bytes, err: Option<ReadError>)

  /** A run: each call delivers from the stream the call before it left. */
  ghost predicate IsRun(states: seq<Stream>, calls: seq<ReadCall>) {
    && |states| == |calls| + 1
    && forall i :: 0 <= i < |calls| ==>
         Delivers(states[i], calls[i].room, calls[i].got, states[i + 1], calls[i].err)
  }

  function Joined(calls: seq<ReadCall>): bytes {
    if calls == [] then [] else calls[0].got + Joined(calls[1..])
  }

  /** Whatever the buffer sizes, what the reads returned and what is left are the stream. */
  lemma {:induction false} ReadsAreAPrefix(states: seq<Stream>, calls: seq<ReadCall>)
    requires IsRun(states, calls)
    ensures states[0] == Prepend(Joined(calls), states[|calls|])
  {
    if calls == [] {
      assert Prepend([], states[0]) == states[0];
    } else {
      assert IsRun(states[1..], calls[1..]);
      ReadsAreAPrefix(states[1..], calls[1..]);
      assert Delivers(states[0], calls[0].room, calls[0].got, states[1], calls[0].err);
      PrependTwice(calls[0].got, Joined(calls[1..]), states[|calls|]);
    }
  }

  /** Once a read has reported an error, everything has been read: the error is the one that
      ends the stream, and every later read with room reports it again without a byte. */
  lemma ErrorIsFinal(states: seq<Stream>, calls: seq<ReadCall>, i: nat, j: nat)
    requires IsRun(states, calls) && i < j < |calls| && calls[i].err.Some?
    ensures calls[i].err == Some(states[0].end) && Joined(calls[..i + 1]) == states[0].data
    ensures calls[j].room > 0 ==> calls[j].got == [] && calls[j].err == calls[i].err
  {
    ReadsAreAPrefix(states[..i + 2], calls[..i + 1]);
    ReadsAreAPrefix(states[..j + 1], calls[..j]);
    ReadsAreAPrefix(states[i + 1..j + 1], calls[i + 1..j]);
    assert Delivers(states[i], calls[i].room, calls[i].got, states[i + 1], calls[i].err);
    assert states[i + 1].data == [];
    assert Delivers(states[j], calls[j].room, calls[j].got, states[j + 1], calls[j].err);
  }

  // ---------------------------------------------------------------- concatenation

  /** The payload of a slice: without its header, up to its declared size. */
  function Payload(slot: Option<Device>): bytes {
    match OpenedSlice(slot)
    case Err(_) => []
    case Ok(o) =>
      var avail := From(o.device, o.base);
      if o.size.Some? then avail[..Min(o.size.value, |avail|)] else avail
  }

  /** Nothing stops a reader that enters this slice at pos before the slice's end. */
  predicate Complete(slot: Option<Device>, pos: uint64) {
    match OpenedSlice(slot)
    case Err(_) => false
    case Ok(o) =>
      match o.size
      case Some(n) => pos >= n || |From(o.device, o.base)| >= n
      case None => pos <= MAX_INT64 && o.device.short == ShortEof
  }

  function Dropped(s: bytes, n: nat): bytes {
    if n <= |s| then s[n..] else []
  }

  /** drop(payload(slice), pos) ++ payload(slice + 1) ++ ... ++ payload(last) */
  function Payloads(provider: Provider, slice: uint32, last: uint32, pos: uint64): bytes
    requires slice <= last
    decreases last - slice
  {
    Dropped(Payload(provider(slice)), pos)
    + if slice == last then [] else Payloads(provider, slice + 1, last, 0)
  }

  predicate AllComplete(provider: Provider, slice: uint32, last: uint32, pos: uint64)
    requires slice <= last
    decreases last - slice
  {
    && Complete(provider(slice), pos)
    && (slice < last ==> AllComplete(provider, slice + 1, last, 0))
  }

  lemma FromSum(d: Device, base: nat, pos: nat)
    requires base + pos <= MAX_INT64
    ensures From(d, base + pos) == Dropped(From(d, base), pos)
  {
  }

  lemma DroppedTake(avail: bytes, n: nat, pos: nat)
    requires pos <= n <= |avail|
    ensures Dropped(avail, pos)[..n - pos] == Dropped(avail[..n], pos)
  {
  }

  /** What a slice with n bytes gives from pos on. */
  lemma SizedPart(avail: bytes, n: nat, pos: nat, short: ShortRead, after: Stream)
    requires pos < n
    ensures var s := RestOfSlice(Dropped(avail, pos), Some(n - pos), short, after);
      var part := Dropped(avail[..Min(n, |avail|)], pos);
      if |avail| >= n then s == Prepend(part, after) else s.data <= part && s.end != Eof
  {
    if |avail| >= n {
      DroppedTake(avail, n, pos);
    } else {
      assert avail[..|avail|] == avail;
    }
  }

  /** A slice with a header. */
  lemma SizedSlice(provider: Provider, o: Opened, slice: uint32, last: uint32, pos: uint64)
    requires slice <= last && OpenedSlice(provider(slice)) == Ok(o) && o.size.Some?
    ensures var s := OpenStream(provider, o, slice, last, pos);
      var part := Dropped(Payload(provider(slice)), pos);
      if Complete(provider(slice), pos) then s == Prepend(part, AfterSlice(provider, slice, last))
      else s.data <= part && s.end != Eof
  {
    var avail, n, after := From(o.device, o.base), o.size.value, AfterSlice(provider, slice, last);
    if pos >= n {
      PrependNothing(after);
      assert Dropped(avail[..Min(n, |avail|)], pos) == [];
    } else if o.base + pos <= MAX_INT64 {
      FromSum(o.device, o.base, pos);
      OpenIsRest(provider, o, slice, last, pos);
      SizedPart(avail, n, pos, o.device.short, after);
    }
  }

  /** A raw slice. */
  lemma RawSlice(provider: Provider, o: Opened, slice: uint32, last: uint32, pos: uint64)
    requires slice <= last && OpenedSlice(provider(slice)) == Ok(o) && o.size.None?
    ensures var s := OpenStream(provider, o, slice, last, pos);
      var part := Dropped(Payload(provider(slice)), pos);
      if Complete(provider(slice), pos) then s == Prepend(part, AfterSlice(provider, slice, last))
      else s.data <= part && s.end != Eof
  {
    if o.base + pos <= MAX_INT64 {
      FromSum(o.device, o.base, pos);
    }
  }

  lemma OneSlice(provider: Provider, o: Opened, slice: uint32, last: uint32, pos: uint64)
    requires slice <= last && OpenedSlice(provider(slice)) == Ok(o)
    ensures var s := OpenStream(provider, o, slice, last, pos);
      var part := Dropped(Payload(provider(slice)), pos);
      if Complete(provider(slice), pos) then s == Prepend(part, AfterSlice(provider, slice, last))
      else s.data <= part && s.end != Eof
  {
    if o.size.Some? {
      SizedSlice(provider, o, slice, last, pos);
    } else {
      RawSlice(provider, o, slice, last, pos);
    }
  }

  /** The external stream is the concatenation of the payloads, from chunk.Offset on: a prefix
      of it always, and all of it, ended by EOF, exactly when every slice opens, reaches its
      declared size (or, for a raw slice, ends in a regular EOF within the int64 range). */
  lemma {:induction false} ExternalIsConcatenation(provider: Provider, slice: uint32, last: uint32, pos: uint64)
    requires slice <= last
    ensures var s := SliceStream(provider, slice, last, pos);
      && s.data <= Payloads(provider, slice, last, pos)
      && (s.end == Eof <==> AllComplete(provider, slice, last, pos))
      && (s.end == Eof ==> s.data == Payloads(provider, slice, last, pos))
    decreases last - slice
  {
    if slice < last {
      ExternalIsConcatenation(provider, slice + 1, last, 0);
    }
    match OpenedSlice(provider(slice))
    case Err(_) =>
    case Ok(o) =>
      var part, after := Dropped(Payload(provider(slice)), pos), AfterSlice(provider, slice, last);
      var behind := if slice == last then [] else Payloads(provider, slice + 1, last, 0);
      OneSlice(provider, o, slice, last, pos);
      assert after.data <= behind;
      PrefixOfSum(part, after.data, behind);
  }

  lemma PrefixOfSum(part: bytes, data: bytes, behind: bytes)
    requires data <= behind
    ensures part + data <= part + behind && part <= part + behind
  {
  }
}
