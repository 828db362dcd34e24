/** What a slice of internal/stream/slice.go holds, read off its bytes: the header, if there is
    one, its declared size, and the payload behind it. */
module SliceBytes {
  import opened Bytes
  import opened Slices
  import opened FilterBytes
  import Format

  /** "idska16" or "idska32" and a 1A. */
  predicate HasMagic(c: bytes) {
    && |c| >= 8 && c[0] == 0x69 && c[1] == 0x64 && c[2] == 0x73 && c[3] == 0x6b && c[4] == 0x61
    && ((c[5] == 0x31 && c[6] == 0x36) || (c[5] == 0x33 && c[6] == 0x32)) && c[7] == 0x1a
  }

  /** The size that a header declares, header included. */
  function DeclaredTotal(c: bytes): nat
    requires |c| >= 12
  {
    c[8] as int + 0x100 * c[9] as int + 0x1_0000 * c[10] as int + 0x100_0000 * c[11] as int
  }

  /** The header is whole and declares at least its own size. */
  predicate GoodHeader(c: bytes) {
    HasMagic(c) && |c| >= 12 && DeclaredTotal(c) >= 12
  }

  lemma MagicIs(c: bytes)
    ensures |c| >= 8 && IsMagic(c[..8]) <==> HasMagic(c)
  {
    if |c| >= 8 {
      var h := c[..8];
      assert HasMagic(c) && c[5] == 0x31 ==> h == [0x69, 0x64, 0x73, 0x6b, 0x61, 0x31, 0x36, 0x1a];
      assert HasMagic(c) && c[5] == 0x33 ==> h == [0x69, 0x64, 0x73, 0x6b, 0x61, 0x33, 0x32, 0x1a];
    }
  }

  lemma TotalIs(c: bytes)
    requires |c| >= 12
    ensures LE(c[8..12]) == DeclaredTotal(c)
  {
    LEDigits(c[8..12]);
  }

  /** The payload of a slice: behind a header, up to the declared total or the end of the slice;
      without one, the whole slice.  Read from its start, it is complete exactly if the total is
      there or, without a header, if the slice ends regularly. */
  lemma PayloadIsContent(d: Device)
    ensures GoodHeader(d.content) ==>
      && Payload(Some(d)) == d.content[12..Min(DeclaredTotal(d.content), |d.content|)]
      && (Complete(Some(d), 0) <==> |d.content| >= DeclaredTotal(d.content))
    ensures !HasMagic(d.content) ==>
      && Payload(Some(d)) == d.content
      && (Complete(Some(d), 0) <==> d.short == ShortEof)
    ensures HasMagic(d.content) && !GoodHeader(d.content) ==> !Complete(Some(d), 0)
  {
    var c := d.content;
    MagicIs(c);
    if GoodHeader(c) {
      TotalIs(c);
      var n := DeclaredTotal(c) - 12;
      assert c[12..][..Min(n, |c| - 12)] == c[12..Min(DeclaredTotal(c), |c|)];
    } else if HasMagic(c) {
      if |c| >= 12 {
        TotalIs(c);
      }
    } else {
      assert c[0..] == c;
    }
  }

  /** The slices behind one. */
  lemma Behind(provider: Provider, slice: uint32, last: uint32)
    requires slice <= last
    ensures AfterSlice(provider, slice, last)
         == if slice == last then Stream([], Eof) else SliceStream(provider, slice + 1, last, 0)
  {
  }

  /** The slices from one with a good header on: its payload from pos on and then the next
      slices, or an error behind what is there of it. */
  lemma HeaderedSlice(provider: Provider, slice: uint32, last: uint32, pos: uint64, d: Device)
    requires slice <= last && provider(slice) == Some(d) && GoodHeader(d.content)
    ensures var c, s := d.content, SliceStream(provider, slice, last, pos);
      var total := DeclaredTotal(c);
      var after := if slice == last then Stream([], Eof) else SliceStream(provider, slice + 1, last, 0);
      if pos >= total - 12 then s == after
      else if |c| >= total then s == Prepend(c[12 + pos..total], after)
      else s.data == (if 12 + pos <= |c| then c[12 + pos..] else []) && s.end != Eof
  {
    var c := d.content;
    MagicIs(c);
    TotalIs(c);
    Behind(provider, slice, last);
    var total := DeclaredTotal(c);
    var o := Opened(d, 12, Some(total - 12));
    assert SliceStream(provider, slice, last, pos) == OpenStream(provider, o, slice, last, pos);
    if pos < total - 12 {
      OpenIsRest(provider, o, slice, last, pos);
      RestIsPart(d, 12 + pos, total, AfterSlice(provider, slice, last));
    }
  }

  lemma RestIsPart(d: Device, at: nat, total: nat, after: Stream)
    requires at < total
    ensures var c, s := d.content, RestOfSlice(From(d, at), Some(total - at), d.short, after);
      if |c| >= total then s == Prepend(c[at..total], after)
      else s.data == (if at <= |c| then c[at..] else []) && s.end != Eof
  {
    var c := d.content;
    if |c| >= total {
      assert c[at..][..total - at] == c[at..total];
    }
  }

  /** A slice without a header, read from pos on. */
  lemma RawSliceBytes(provider: Provider, slice: uint32, last: uint32, pos: uint64, d: Device)
    requires slice <= last && provider(slice) == Some(d) && !HasMagic(d.content) && pos <= MAX_INT64
    ensures var c, s := d.content, SliceStream(provider, slice, last, pos);
      var after := if slice == last then Stream([], Eof) else SliceStream(provider, slice + 1, last, 0);
      var part := if pos <= |c| then c[pos..] else [];
      if d.short == ShortEof then s == Prepend(part, after) else s.data == part && s.end != Eof
  {
    MagicIs(d.content);
    Behind(provider, slice, last);
    if d.content != [] || d.short != ShortFailed {
      var o := Opened(d, 0, None);
      assert SliceStream(provider, slice, last, pos) == OpenStream(provider, o, slice, last, pos);
    }
  }

  /** A slice that is missing, or whose header is cut off or declares too little, ends the
      stream. */
  lemma NoSlice(provider: Provider, slice: uint32, last: uint32, pos: uint64)
    requires slice <= last
    ensures provider(slice) == None ==> SliceStream(provider, slice, last, pos) == Stream([], MissingSlice)
    ensures provider(slice).Some? && HasMagic(provider(slice).value.content)
            && !GoodHeader(provider(slice).value.content) ==>
      SliceStream(provider, slice, last, pos) == Stream([], Corrupt)
  {
    if provider(slice).Some? {
      var c := provider(slice).value.content;
      MagicIs(c);
      if |c| >= 12 {
        TotalIs(c);
      }
    }
  }

  /** Where a chunk's data comes from.  Slices are used exactly if there are some and the archive
      has no data offset; otherwise the data starts at the data offset plus that of the chunk. */
  lemma ChunkSource(r: Device, layout: Layout, chunk: Format.Chunk, slices: Option<Provider>)
    ensures chunk.firstSlice <= chunk.lastSlice && layout.dataOffset == 0 && slices.Some? ==>
      ChunkStream(r, layout, chunk, slices)
      == Ok(SliceStream(slices.value, chunk.firstSlice, chunk.lastSlice, chunk.offset))
    ensures chunk.firstSlice <= chunk.lastSlice && layout.dataOffset == 0 && slices.None? && layout.hasBaseFilename ==>
      ChunkStream(r, layout, chunk, slices) == Err(MissingSlice)
    ensures chunk.firstSlice <= chunk.lastSlice
            && (layout.dataOffset != 0 || (slices.None? && !layout.hasBaseFilename)) ==>
      var p := layout.dataOffset + chunk.offset;
      ChunkStream(r, layout, chunk, slices)
      == if p > MAX_UINT64 then Err(Corrupt)
         else if p > MAX_INT64 then Ok(Stream([], Corrupt))
         else
           var end := if r.short == ShortFailed then ReadFailed else Eof;
           Ok(Stream(if p <= |r.content| then r.content[p..] else [], end))
    ensures chunk.firstSlice > chunk.lastSlice ==> ChunkStream(r, layout, chunk, slices) == Err(Corrupt)
  {
  }
}
